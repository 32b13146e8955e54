/**
 * The strict environment-file parser and its printer
 * (packages/cli/src/engine/env-file.ts), over text as UTF-16 code units.
 */
module EnvFile {
  import opened Sequences
  import opened Wrappers
  import opened Utf16

  const LF: Unit := 10
  const DOUBLE_QUOTE: Unit := 0x22
  const SINGLE_QUOTE: Unit := 0x27
  const HASH: Unit := 0x23
  const EQUALS: Unit := 0x3D
  const UNDERSCORE: Unit := 0x5F

  const EXPORT: Str := Ascii("export")

  const ENV_ONLY_VARIABLES: seq<Str> := [
    Ascii("HABENULA_CONFIG"), Ascii("HABENULA_PERSIST_ROOT"),
    Ascii("HABENULA_API_URL"), Ascii("HABENULA_INTERNAL_MCP_URL")
  ]

  const SERIALIZE_ORDER: seq<Str> := [
    Ascii("CREDENTIAL_ENCRYPTION_KEY"), Ascii("INTERNAL_MCP_TOKEN"),
    Ascii("HABENULA_PORT"), Ascii("OAUTH_REDIRECT_BASE_URL")
  ]

  // ---------------------------------------------------------------------
  // String operations of the source's language
  // ---------------------------------------------------------------------

  /** WhiteSpace and LineTerminator (sections 12.2 and 12.3 of ECMA-262 2024): what `trim` and `\s` take. */
  predicate IsSpace(u: Unit) {
    || 9 <= u <= 13 || u == 0x20 || u == 0xA0 || u == 0x1680 || 0x2000 <= u <= 0x200A
    || u == 0x2028 || u == 0x2029 || u == 0x202F || u == 0x205F || u == 0x3000 || u == 0xFEFF
  }

  function TrimStart(s: Str): (r: Str)
    ensures |r| <= |s| && (|r| == |s| ==> r == s)
  {
    if s != [] && IsSpace(s[0]) then TrimStart(s[1..]) else s
  }

  function TrimEnd(s: Str): (r: Str)
    ensures |r| <= |s| && (|r| == |s| ==> r == s)
  {
    if s != [] && IsSpace(s[|s| - 1]) then TrimEnd(s[..|s| - 1]) else s
  }

  function Trim(s: Str): (r: Str)
    ensures |r| <= |s| && (|r| == |s| ==> r == s)
  {
    TrimEnd(TrimStart(s))
  }

  /** `s.indexOf(u, from)`. */
  function IndexOf(s: Str, u: Unit, from: nat): (r: Option<nat>)
    ensures r.Some? ==> from <= r.value < |s|
    decreases |s| - from
  {
    if from >= |s| then None else if s[from] == u then Some(from) else IndexOf(s, u, from + 1)
  }

  /** `text.split("\n")`. */
  function SplitLines(text: Str): (r: seq<Str>)
    ensures r != []
  {
    if text == [] then [[]] else OntoLines(text[0], SplitLines(text[1..]))
  }

  /** The lines of a text that has one unit more in front. */
  function OntoLines(u: Unit, lines: seq<Str>): (r: seq<Str>)
    requires lines != []
    ensures r != []
  {
    if u == LF then [[]] + lines else [[u] + lines[0]] + lines[1..]
  }

  predicate LineFree(s: Str) { LF !in s }

  // ---------------------------------------------------------------------
  // The parser
  // ---------------------------------------------------------------------

  datatype Fault = NoEquals | EmptyKey | BadKey | EnvironmentOnly | UnterminatedQuote | TextAfterQuote

  datatype ConfigFileError = ConfigFileError(lineNumber: nat, fault: Fault)

  type Vars = map<Str, Str>

  predicate IsQuote(u: Unit) { u == DOUBLE_QUOTE || u == SINGLE_QUOTE }

  predicate IsKeyStart(u: Unit) { 0x41 <= u <= 0x5A || 0x61 <= u <= 0x7A || u == UNDERSCORE }

  predicate IsKeyUnit(u: Unit) { IsKeyStart(u) || 0x30 <= u <= 0x39 }

  /** `KEY_SHAPE`. */
  predicate KeyShape(key: Str) {
    key != [] && IsKeyStart(key[0]) && forall i :: 0 <= i < |key| ==> IsKeyUnit(key[i])
  }

  /** Somewhere a `#` follows white space. */
  predicate HasComment(s: Str) {
    exists i :: 0 < i < |s| && IsSpace(s[i - 1]) && s[i] == HASH
  }

  function SplitUnquotedComment(raw: Str): (r: Str)
    ensures |r| <= |raw| && (|r| == |raw| ==> r == raw)
  {
    if |raw| < 2 then raw
    else if IsSpace(raw[0]) && raw[1] == HASH then []
    else [raw[0]] + SplitUnquotedComment(raw[1..])
  }

  function ReadValue(raw: Str): Result<Str, Fault> {
    if raw == [] || !IsQuote(raw[0]) then Ok(Trim(SplitUnquotedComment(raw)))
    else
      match IndexOf(raw, raw[0], 1)
      case None => Err(UnterminatedQuote)
      case Some(close) =>
        var trailing := Trim(raw[close + 1..]);
        if trailing != [] && trailing[0] != HASH then Err(TextAfterQuote) else Ok(raw[1..close])
  }

  /** `line.replace(/^export\s+/, "")`. */
  function StripExport(line: Str): Str {
    if |line| > |EXPORT| && line[..|EXPORT|] == EXPORT && IsSpace(line[|EXPORT|]) then TrimStart(line[|EXPORT|..])
    else line
  }

  /** What one line of the file says. */
  datatype LineRead = Skip | Bind(key: Str, value: Str) | Refuse(fault: Fault)

  /** What a line with nothing around it says as a binding. */
  function ReadBinding(line: Str, allowPathVariables: bool): LineRead {
    match IndexOf(line, EQUALS, 0)
    case None => Refuse(NoEquals)
    case Some(eq) =>
      var key := Trim(line[..eq]);
      if key == [] then Refuse(EmptyKey)
      else if !KeyShape(key) then Refuse(BadKey)
      else if !allowPathVariables && key in ENV_ONLY_VARIABLES then Refuse(EnvironmentOnly)
      else
        match ReadValue(Trim(line[eq + 1..]))
        case Err(fault) => Refuse(fault)
        case Ok(value) => Bind(key, value)
  }

  function ReadLine(text: Str, allowPathVariables: bool): LineRead {
    var trimmed := Trim(text);
    if trimmed == [] || trimmed[0] == HASH then Skip
    else
      ReadBinding(StripExport(trimmed), allowPathVariables)
  }

  /** The parser's reading of a line. */
  function Reader(allow: bool): Str -> LineRead { line => ReadLine(line, allow) }

  /** What the lines say, one by one. */
  function ReadAll(lines: seq<Str>, allow: bool): seq<LineRead> { Map(Reader(allow), lines) }

  /** What the lines from number `n` on say, taken in order over the variables bound so far. */
  function TakeAll(said: seq<LineRead>, n: nat, vars: Vars): Result<Vars, ConfigFileError>
    decreases |said|
  {
    if said == [] then Ok(vars)
    else
      match said[0]
      case Skip => TakeAll(said[1..], n + 1, vars)
      case Bind(key, value) => TakeAll(said[1..], n + 1, vars[key := value])
      case Refuse(fault) => Err(ConfigFileError(n, fault))
  }

  function Parse(text: Str, allow: bool): Result<Vars, ConfigFileError> {
    ParseBy(Reader(allow), text)
  }

  function ParseBy(read: Str -> LineRead, text: Str): Result<Vars, ConfigFileError> {
    TakeAll(Map(read, SplitLines(text)), 1, map[])
  }

  /** One turn of the parser's loop. */
  method ReadConfigLine(text: Str, allowPathVariables: bool) returns (r: LineRead)
    ensures r == ReadLine(text, allowPathVariables)
  {
    var line := Trim(text);
    if |line| == 0 || line[0] == HASH {
      return Skip;
    }
    line := StripExport(line);
    var eq := IndexOf(line, EQUALS, 0);
    if eq.None? {
      return Refuse(NoEquals);
    }
    var key := Trim(line[..eq.value]);
    if |key| == 0 {
      return Refuse(EmptyKey);
    }
    if !KeyShape(key) {
      return Refuse(BadKey);
    }
    if !allowPathVariables && key in ENV_ONLY_VARIABLES {
      return Refuse(EnvironmentOnly);
    }
    var value := ReadValue(Trim(line[eq.value + 1..]));
    if value.Err? {
      return Refuse(value.error);
    }
    return Bind(key, value.value);
  }

  lemma TakeNext(said: seq<LineRead>, i: nat, vars: Vars)
    requires i < |said|
    ensures TakeAll(said[i..], i + 1, vars)
         == match said[i]
            case Skip => TakeAll(said[i + 1..], i + 2, vars)
            case Bind(key, value) => TakeAll(said[i + 1..], i + 2, vars[key := value])
            case Refuse(fault) => Err(ConfigFileError(i + 1, fault))
  {
    assert said[i..][1..] == said[i + 1..];
  }

  /** `parseEnvFile`. */
  method ParseEnvFile(text: Str, allowPathVariables: bool) returns (r: Result<Vars, ConfigFileError>)
    ensures r == Parse(text, allowPathVariables)
  {
    var vars: Vars := map[];
    var lines := SplitLines(text);
    ghost var said := ReadAll(lines, allowPathVariables);
    MapAt(Reader(allowPathVariables), lines);
    assert said[0..] == said;
    for i := 0 to |lines|
      invariant TakeAll(said[i..], i + 1, vars) == Parse(text, allowPathVariables)
    {
      TakeNext(said, i, vars);
      var read := ReadConfigLine(lines[i], allowPathVariables);
      match read {
        case Skip =>
        case Bind(key, value) => vars := vars[key := value];
        case Refuse(fault) => return Err(ConfigFileError(i + 1, fault));
      }
    }
    return Ok(vars);
  }

  // ---------------------------------------------------------------------
  // Nothing is dropped
  // ---------------------------------------------------------------------

  lemma {:induction false} TakeAllOfJoin(a: seq<LineRead>, b: seq<LineRead>, n: nat, vars: Vars)
    ensures TakeAll(a + b, n, vars)
         == match TakeAll(a, n, vars)
            case Err(e) => Err(e)
            case Ok(after) => TakeAll(b, n + |a|, after)
    decreases |a|
  {
    if a == [] {
      JoinEmpty(b);
    } else {
      JoinRest(a, b);
      match a[0]
      case Skip => TakeAllOfJoin(a[1..], b, n + 1, vars);
      case Bind(key, value) => TakeAllOfJoin(a[1..], b, n + 1, vars[key := value]);
      case Refuse(_) =>
    }
  }

  /** Reading on past lines already read. */
  lemma TakeAllOfMore(read: Str -> LineRead, a: seq<Str>, b: seq<Str>, n: nat, vars: Vars)
    ensures TakeAll(Map(read, a + b), n, vars)
         == match TakeAll(Map(read, a), n, vars)
            case Err(e) => Err(e)
            case Ok(after) => TakeAll(Map(read, b), n + |a|, after)
  {
    MapOfJoin(read, a, b);
    TakeAllOfJoin(Map(read, a), Map(read, b), n, vars);
  }

  lemma OntoLinesOfJoin(u: Unit, a: seq<Str>, b: seq<Str>)
    requires a != []
    ensures OntoLines(u, a + b) == OntoLines(u, a) + b
  {
    JoinRest(a, b);
    if u == LF {
      JoinAssoc([[]], a, b);
    } else {
      JoinAssoc([[u] + a[0]], a[1..], b);
    }
  }

  /** The first refused line, counted from the front, and why. */
  function FirstRefusal(said: seq<LineRead>): (r: Option<(nat, Fault)>)
    ensures r.Some? ==> r.value.0 < |said| && said[r.value.0] == Refuse(r.value.1)
    ensures r.Some? ==> forall j :: 0 <= j < r.value.0 ==> !said[j].Refuse?
    ensures r.None? ==> forall j :: 0 <= j < |said| ==> !said[j].Refuse?
  {
    if said == [] then None
    else if said[0].Refuse? then Some((0, said[0].fault))
    else
      match FirstRefusal(said[1..])
      case None => None
      case Some((i, fault)) => Some((i + 1, fault))
  }

  /** The value the last line that binds the key gives it. */
  function LastBinding(said: seq<LineRead>, key: Str): (r: Option<Str>)
    ensures r.Some? ==> Bind(key, r.value) in said
    ensures r.None? ==> forall i :: 0 <= i < |said| && said[i].Bind? ==> said[i].key != key
  {
    if said == [] then None
    else
      match LastBinding(said[1..], key)
      case Some(value) => Some(value)
      case None => if said[0].Bind? && said[0].key == key then Some(said[0].value) else None
  }

  lemma {:induction false} TakeAllMeaning(said: seq<LineRead>, n: nat, vars: Vars)
    ensures match FirstRefusal(said)
      case Some((i, fault)) => TakeAll(said, n, vars) == Err(ConfigFileError(n + i, fault))
      case None =>
        && TakeAll(said, n, vars).Ok?
        && (forall key :: Looked(TakeAll(said, n, vars).value, key)
              == if LastBinding(said, key).Some? then LastBinding(said, key) else Looked(vars, key))
    decreases |said|
  {
    if said != [] {
      match said[0]
      case Skip => TakeAllMeaning(said[1..], n + 1, vars);
      case Bind(key, value) => TakeAllMeaning(said[1..], n + 1, vars[key := value]);
      case Refuse(_) =>
    }
  }

  function Looked(vars: Vars, key: Str): Option<Str> { if key in vars then Some(vars[key]) else None }

  /** Refused at its first bad line, or read whole with each key's last binding. */
  ghost predicate ReadWhole(said: seq<LineRead>, r: Result<Vars, ConfigFileError>) {
    match FirstRefusal(said)
    case Some((i, fault)) => r == Err(ConfigFileError(1 + i, fault))
    case None => r.Ok? && forall key :: Looked(r.value, key) == LastBinding(said, key)
  }

  lemma TakeAllFromNothing(said: seq<LineRead>)
    ensures ReadWhole(said, TakeAll(said, 1, map[]))
  {
    TakeAllMeaning(said, 1, map[]);
  }

  /**
   * The file is refused exactly at its first bad line; a file with none is
   * read whole, each key with the value of the last line that binds it.
   */
  lemma ParseMeaning(text: Str, allow: bool)
    ensures ReadWhole(ReadAll(SplitLines(text), allow), Parse(text, allow))
  {
    TakeAllFromNothing(ReadAll(SplitLines(text), allow));
  }

  lemma {:induction false} SplitLinesOfJoin(a: Str, b: Str)
    ensures SplitLines(a + ([LF] + b)) == SplitLines(a) + SplitLines(b)
  {
    if a == [] {
      JoinEmpty([LF] + b);
      assert ([LF] + b)[1..] == b;
    } else {
      JoinRest(a, [LF] + b);
      SplitLinesOfJoin(a[1..], b);
      OntoLinesOfJoin(a[0], SplitLines(a[1..]), SplitLines(b));
    }
  }

  lemma {:induction false} LinesAreLineFree(text: Str)
    ensures forall line :: line in SplitLines(text) ==> LineFree(line)
  {
    if text != [] {
      LinesAreLineFree(text[1..]);
      var rest := SplitLines(text[1..]);
      assert rest[0] in rest;
      assert forall line :: line in rest[1..] ==> line in rest;
    }
  }

  lemma {:induction false} OneLine(line: Str)
    requires LineFree(line)
    ensures SplitLines(line) == [line]
  {
    if line != [] {
      assert line[0] in line && forall u :: u in line[1..] ==> u in line;
      OneLine(line[1..]);
      assert [line[0]] + line[1..] == line;
    }
  }

  lemma PartIsLineFree(s: Str, lo: nat, hi: nat)
    requires LineFree(s) && lo <= hi <= |s|
    ensures LineFree(s[lo..hi])
  {
    assert forall u :: u in s[lo..hi] ==> u in s;
  }

  lemma {:induction false} TrimStartIsLineFree(s: Str)
    requires LineFree(s)
    ensures LineFree(TrimStart(s))
  {
    if s != [] && IsSpace(s[0]) {
      PartIsLineFree(s, 1, |s|);
      TrimStartIsLineFree(s[1..]);
    }
  }

  lemma {:induction false} TrimEndIsLineFree(s: Str)
    requires LineFree(s)
    ensures LineFree(TrimEnd(s))
  {
    if s != [] && IsSpace(s[|s| - 1]) {
      PartIsLineFree(s, 0, |s| - 1);
      TrimEndIsLineFree(s[..|s| - 1]);
    }
  }

  lemma TrimIsLineFree(s: Str)
    requires LineFree(s)
    ensures LineFree(Trim(s))
  {
    TrimStartIsLineFree(s);
    TrimEndIsLineFree(TrimStart(s));
  }

  lemma {:induction false} UncommentedIsLineFree(raw: Str)
    requires LineFree(raw)
    ensures LineFree(SplitUnquotedComment(raw))
  {
    if |raw| >= 2 && !(IsSpace(raw[0]) && raw[1] == HASH) {
      PartIsLineFree(raw, 1, |raw|);
      UncommentedIsLineFree(raw[1..]);
      assert raw[0] in raw;
    }
  }

  lemma ReadValueIsLineFree(raw: Str)
    requires LineFree(raw) && ReadValue(raw).Ok?
    ensures LineFree(ReadValue(raw).value)
  {
    if raw == [] || !IsQuote(raw[0]) {
      UncommentedIsLineFree(raw);
      TrimIsLineFree(SplitUnquotedComment(raw));
    } else {
      PartIsLineFree(raw, 1, IndexOf(raw, raw[0], 1).value);
    }
  }

  lemma StrippedIsLineFree(line: Str)
    requires LineFree(line)
    ensures LineFree(StripExport(line))
  {
    if |line| > |EXPORT| {
      PartIsLineFree(line, |EXPORT|, |line|);
      TrimStartIsLineFree(line[|EXPORT|..]);
    }
  }

  lemma ValueIsLineFree(text: Str, allow: bool)
    requires LineFree(text) && ReadLine(text, allow).Bind?
    ensures LineFree(ReadLine(text, allow).value)
  {
    TrimIsLineFree(text);
    StrippedIsLineFree(Trim(text));
    var line := StripExport(Trim(text));
    var eq := IndexOf(line, EQUALS, 0).value;
    PartIsLineFree(line, eq + 1, |line|);
    TrimIsLineFree(line[eq + 1..]);
    ReadValueIsLineFree(Trim(line[eq + 1..]));
  }

  predicate AllLineFree(vars: Vars) { forall k :: k in vars ==> LineFree(vars[k]) }

  lemma {:induction false} TakenValuesAreLineFree(said: seq<LineRead>, n: nat, vars: Vars)
    requires (forall i :: 0 <= i < |said| && said[i].Bind? ==> LineFree(said[i].value)) && AllLineFree(vars)
    ensures TakeAll(said, n, vars).Ok? ==> AllLineFree(TakeAll(said, n, vars).value)
    decreases |said|
  {
    if said != [] {
      match said[0]
      case Skip => TakenValuesAreLineFree(said[1..], n + 1, vars);
      case Bind(key, value) => TakenValuesAreLineFree(said[1..], n + 1, vars[key := value]);
      case Refuse(_) =>
    }
  }

  /** No parsed value holds a line break. */
  lemma ParsedIsLineFree(text: Str, allow: bool)
    ensures Parse(text, allow).Ok? ==> AllLineFree(Parse(text, allow).value)
  {
    LinesAreLineFree(text);
    var lines := SplitLines(text);
    MapAt(Reader(allow), lines);
    forall i | 0 <= i < |lines| && ReadAll(lines, allow)[i].Bind? ensures LineFree(ReadAll(lines, allow)[i].value) {
      assert lines[i] in lines;
      ValueIsLineFree(lines[i], allow);
    }
    TakenValuesAreLineFree(ReadAll(lines, allow), 1, map[]);
  }

  // ---------------------------------------------------------------------
  // The printer
  // ---------------------------------------------------------------------

  /** A record's own properties, in insertion order. */
  type Pairs = seq<(Str, Str)>

  predicate DistinctKeys(ps: Pairs) { forall i, j :: 0 <= i < j < |ps| ==> ps[i].0 != ps[j].0 }

  function KeysOf(ps: Pairs): (r: seq<Str>)
    ensures |r| == |ps|
    ensures forall i :: 0 <= i < |ps| ==> r[i] == ps[i].0
  {
    seq(|ps|, i requires 0 <= i < |ps| => ps[i].0)
  }

  function ToMap(ps: Pairs): Vars {
    if ps == [] then map[] else ToMap(ps[1..])[ps[0].0 := ps[0].1]
  }

  /** Insert into a list kept in code-unit order. */
  function InsertKey(sorted: seq<Str>, key: Str): seq<Str> {
    if sorted == [] || StrLess(key, sorted[0]) then [key] + sorted else [sorted[0]] + InsertKey(sorted[1..], key)
  }

  /** `keys.sort()`. */
  function SortKeys(keys: seq<Str>): seq<Str> {
    if keys == [] then [] else InsertKey(SortKeys(keys[1..]), keys[0])
  }

  predicate Strictly(keys: seq<Str>) { forall i, j :: 0 <= i < j < |keys| ==> StrLess(keys[i], keys[j]) }

  /** The write order: known keys in their fixed order, then the others sorted. */
  function WriteOrder(keys: seq<Str>): seq<Str> {
    Filter(key => key in keys, SERIALIZE_ORDER) + SortKeys(Filter(key => key !in SERIALIZE_ORDER, keys))
  }

  function Line(key: Str, value: Str): Str { key + ([EQUALS] + value) }

  /** The lines of these keys, each ended. */
  function Render(keys: seq<Str>, vars: Vars): Str
    requires forall key :: key in keys ==> key in vars
  {
    if keys == [] then [] else Line(keys[0], vars[keys[0]]) + ([LF] + Render(keys[1..], vars))
  }

  lemma {:induction false} ToMapKeys(ps: Pairs, key: Str)
    ensures key in ToMap(ps) <==> key in KeysOf(ps)
  {
    if ps != [] {
      ToMapKeys(ps[1..], key);
      assert KeysOf(ps) == [ps[0].0] + KeysOf(ps[1..]);
    }
  }

  lemma {:induction false} InsertMembers(sorted: seq<Str>, key: Str, k: Str)
    ensures k in InsertKey(sorted, key) <==> k == key || k in sorted
  {
    if sorted != [] && !StrLess(key, sorted[0]) {
      InsertMembers(sorted[1..], key, k);
      assert k in sorted <==> k == sorted[0] || k in sorted[1..];
    }
  }

  lemma {:induction false} SortMembers(keys: seq<Str>, k: Str)
    ensures k in SortKeys(keys) <==> k in keys
  {
    if keys != [] {
      SortMembers(keys[1..], k);
      InsertMembers(SortKeys(keys[1..]), keys[0], k);
      assert k in keys <==> k == keys[0] || k in keys[1..];
    }
  }

  lemma StrictlyCons(key: Str, rest: seq<Str>)
    requires Strictly(rest) && forall k :: k in rest ==> StrLess(key, k)
    ensures Strictly([key] + rest)
  {
    var all := [key] + rest;
    forall i, j | 0 <= i < j < |all| ensures StrLess(all[i], all[j]) {
      assert all[j] == rest[j - 1] && rest[j - 1] in rest;
      if i > 0 {
        assert all[i] == rest[i - 1];
      }
    }
  }

  lemma {:induction false} InsertKeepsOrder(sorted: seq<Str>, key: Str)
    requires Strictly(sorted) && key !in sorted
    ensures Strictly(InsertKey(sorted, key))
  {
    if sorted == [] {
    } else if StrLess(key, sorted[0]) {
      forall k | k in sorted ensures StrLess(key, k) {
        var i :| 0 <= i < |sorted| && sorted[i] == k;
        if i > 0 {
          StrLessTransitive(key, sorted[0], k);
        }
      }
      StrictlyCons(key, sorted);
    } else {
      StrLessTrichotomy(key, sorted[0]);
      InsertKeepsOrder(sorted[1..], key);
      forall k | k in InsertKey(sorted[1..], key) ensures StrLess(sorted[0], k) {
        InsertMembers(sorted[1..], key, k);
      }
      StrictlyCons(sorted[0], InsertKey(sorted[1..], key));
    }
  }

  /** Sorting distinct keys lists each once, in code-unit order. */
  lemma {:induction false} SortOrders(keys: seq<Str>)
    requires Distinct(keys)
    ensures Strictly(SortKeys(keys))
  {
    if keys != [] {
      assert keys[0] !in keys[1..];
      SortOrders(keys[1..]);
      SortMembers(keys[1..], keys[0]);
      InsertKeepsOrder(SortKeys(keys[1..]), keys[0]);
    }
  }

  lemma StrictlyIsDistinct(keys: seq<Str>)
    requires Strictly(keys)
    ensures Distinct(keys)
  {
    forall i, j | 0 <= i < j < |keys| ensures keys[i] != keys[j] {
      StrLessTrichotomy(keys[i], keys[j]);
    }
  }

  lemma {:induction false} FilterKeepsDistinct(p: Str -> bool, keys: seq<Str>)
    requires Distinct(keys)
    ensures Distinct(Filter(p, keys))
  {
    if keys != [] {
      FilterKeepsDistinct(p, keys[1..]);
      FilterMembers(p, keys[1..], keys[0]);
      assert keys[0] !in keys[1..];
    }
  }

  lemma DistinctJoin(a: seq<Str>, b: seq<Str>)
    requires Distinct(a) && Distinct(b) && forall k :: k in a ==> k !in b
    ensures Distinct(a + b)
  {
    var all := a + b;
    forall i, j | 0 <= i < j < |all| ensures all[i] != all[j] {
      if i < |a| <= j {
        assert a[i] in a && b[j - |a|] in b;
      } else if |a| <= i {
        assert all[i] == b[i - |a|] && all[j] == b[j - |a|];
      }
    }
  }

  /** The write order lists exactly the record's keys, each once. */
  lemma WriteOrderIsThorough(keys: seq<Str>)
    requires Distinct(keys)
    ensures Distinct(WriteOrder(keys))
    ensures forall k :: k in WriteOrder(keys) <==> k in keys
  {
    var known := Filter(key => key in keys, SERIALIZE_ORDER);
    var others := Filter(key => key !in SERIALIZE_ORDER, keys);
    forall k ensures k in known <==> k in SERIALIZE_ORDER && k in keys {
      FilterMembers(key => key in keys, SERIALIZE_ORDER, k);
    }
    forall k ensures k in SortKeys(others) <==> k in keys && k !in SERIALIZE_ORDER {
      FilterMembers(key => key !in SERIALIZE_ORDER, keys, k);
      SortMembers(others, k);
    }
    FilterKeepsDistinct(key => key in keys, SERIALIZE_ORDER);
    FilterKeepsDistinct(key => key !in SERIALIZE_ORDER, keys);
    SortOrders(others);
    StrictlyIsDistinct(SortKeys(others));
    DistinctJoin(known, SortKeys(others));
  }

  /** The place of a key in the written file: the four known ones first, in this order. */
  function Place(key: Str): nat {
    if key == Ascii("CREDENTIAL_ENCRYPTION_KEY") then 0
    else if key == Ascii("INTERNAL_MCP_TOKEN") then 1
    else if key == Ascii("HABENULA_PORT") then 2
    else if key == Ascii("OAUTH_REDIRECT_BASE_URL") then 3
    else 4
  }

  lemma KnownPlaces()
    ensures |SERIALIZE_ORDER| == 4 && forall i :: 0 <= i < 4 ==> Place(SERIALIZE_ORDER[i]) == i
    ensures forall k :: Place(k) < 4 <==> k in SERIALIZE_ORDER
  {
    assert |SERIALIZE_ORDER[0]| == 25 && |SERIALIZE_ORDER[1]| == 18 && |SERIALIZE_ORDER[2]| == 13 && |SERIALIZE_ORDER[3]| == 23;
    forall k ensures Place(k) < 4 <==> k in SERIALIZE_ORDER {
      assert SERIALIZE_ORDER == [SERIALIZE_ORDER[0], SERIALIZE_ORDER[1], SERIALIZE_ORDER[2], SERIALIZE_ORDER[3]];
    }
  }

  predicate Placed(keys: seq<Str>) { forall i, j :: 0 <= i < j < |keys| ==> Place(keys[i]) < Place(keys[j]) }

  lemma {:induction false} FilterKeepsPlaced(p: Str -> bool, keys: seq<Str>)
    requires Placed(keys)
    ensures Placed(Filter(p, keys))
  {
    if keys != [] {
      FilterKeepsPlaced(p, keys[1..]);
      forall k | k in Filter(p, keys[1..]) ensures Place(keys[0]) < Place(k) {
        FilterMembers(p, keys[1..], k);
        var i :| 0 <= i < |keys[1..]| && keys[1..][i] == k;
        assert keys[i + 1] == k;
      }
    }
  }

  /** The known keys are written first, in their fixed order, and the others after them in code-unit order. */
  lemma WriteOrderIsFixed(keys: seq<Str>, i: nat, j: nat)
    requires Distinct(keys) && i < j < |WriteOrder(keys)|
    ensures var a, b := WriteOrder(keys)[i], WriteOrder(keys)[j];
      Place(a) < Place(b) || (Place(a) == 4 && Place(b) == 4 && StrLess(a, b))
  {
    var known := Filter(key => key in keys, SERIALIZE_ORDER);
    var others := Filter(key => key !in SERIALIZE_ORDER, keys);
    KnownPlaces();
    FilterKeepsPlaced(key => key in keys, SERIALIZE_ORDER);
    FilterKeepsDistinct(key => key !in SERIALIZE_ORDER, keys);
    SortOrders(others);
    if i < |known| {
      FilterMembers(key => key in keys, SERIALIZE_ORDER, known[i]);
    }
    if j >= |known| {
      OtherIsPlacedLast(keys, WriteOrder(keys)[j]);
    }
    if i >= |known| {
      OtherIsPlacedLast(keys, WriteOrder(keys)[i]);
    }
  }

  lemma OtherIsPlacedLast(keys: seq<Str>, k: Str)
    requires k in SortKeys(Filter(key => key !in SERIALIZE_ORDER, keys))
    ensures Place(k) == 4
  {
    SortMembers(Filter(key => key !in SERIALIZE_ORDER, keys), k);
    FilterMembers(key => key !in SERIALIZE_ORDER, keys, k);
    KnownPlaces();
  }

  /** `serializeEnvFile`. */
  function Serialize(ps: Pairs): Str
    requires DistinctKeys(ps)
  {
    WriteOrderOf(ps);
    Render(WriteOrder(KeysOf(ps)), ToMap(ps))
  }

  lemma WriteOrderOf(ps: Pairs)
    requires DistinctKeys(ps)
    ensures Distinct(WriteOrder(KeysOf(ps)))
    ensures forall k :: k in WriteOrder(KeysOf(ps)) <==> k in ToMap(ps)
  {
    WriteOrderIsThorough(KeysOf(ps));
    forall k ensures k in WriteOrder(KeysOf(ps)) <==> k in ToMap(ps) {
      ToMapKeys(ps, k);
    }
  }

  // ---------------------------------------------------------------------
  // Parsing what was printed
  // ---------------------------------------------------------------------

  /** A key the parser accepts. */
  predicate LegalKey(key: Str, allow: bool) { KeyShape(key) && (allow || key !in ENV_ONLY_VARIABLES) }

  /** A value that survives printing: trimmed, on one line, not opening with a quote, with no `#` after white space. */
  predicate Printable(value: Str) {
    && LineFree(value) && Trim(value) == value
    && (value != [] ==> !IsQuote(value[0]))
    && !HasComment(value)
  }

  lemma {:induction false} SplitCommentIff(raw: Str)
    ensures SplitUnquotedComment(raw) == raw <==> !HasComment(raw)
  {
    if |raw| >= 2 {
      var rest := raw[1..];
      SplitCommentIff(rest);
      if HasComment(rest) {
        var i :| 0 < i < |rest| && IsSpace(rest[i - 1]) && rest[i] == HASH;
        assert IsSpace(raw[i + 1 - 1]) && raw[i + 1] == HASH;
      }
      if i :| 1 < i < |raw| && IsSpace(raw[i - 1]) && raw[i] == HASH {
        assert IsSpace(rest[i - 1 - 1]) && rest[i - 1] == HASH;
      }
      if IsSpace(raw[0]) && raw[1] == HASH {
        assert IsSpace(raw[1 - 1]) && raw[1] == HASH;
      }
    }
  }

  /** Reading a value back gives it unchanged exactly when it is printable. */
  lemma ReadBackIff(value: Str)
    requires LineFree(value)
    ensures ReadValue(Trim(TrimEnd(value))) == Ok(value) <==> Printable(value)
  {
    var raw := Trim(TrimEnd(value));
    SplitCommentIff(raw);
    if Printable(value) {
      assert TrimStart(value) == value && TrimEnd(value) == value;
    } else if raw != [] && IsQuote(raw[0]) {
      if ReadValue(raw).Ok? {
        assert |ReadValue(raw).value| < |raw| <= |value|;
      }
    }
  }

  lemma {:induction false} TrimEndAfter(front: Str, u: Unit, value: Str)
    requires !IsSpace(u)
    ensures TrimEnd(front + ([u] + value)) == front + ([u] + TrimEnd(value))
  {
    var all := front + ([u] + value);
    if value == [] {
      assert all[|all| - 1] == u;
    } else {
      assert all[|all| - 1] == value[|value| - 1];
      if IsSpace(value[|value| - 1]) {
        assert all[..|all| - 1] == front + ([u] + value[..|value| - 1]);
        TrimEndAfter(front, u, value[..|value| - 1]);
      }
    }
  }

  lemma KeyUnitsArePlain(key: Str)
    requires KeyShape(key)
    ensures forall i :: 0 <= i < |key| ==> !IsSpace(key[i]) && key[i] != EQUALS && key[i] != HASH && key[i] != LF
  {
  }

  lemma TrimOfPlain(key: Str)
    requires KeyShape(key)
    ensures Trim(key) == key
  {
    KeyUnitsArePlain(key);
  }

  lemma {:induction false} FirstIndex(s: Str, u: Unit, from: nat, at: nat)
    requires from <= at < |s| && s[at] == u && forall i :: from <= i < at ==> s[i] != u
    ensures IndexOf(s, u, from) == Some(at)
    decreases at - from
  {
    if from < at {
      FirstIndex(s, u, from + 1, at);
    }
  }

  /** What the line printed for a binding says to the parser. */
  function Said(key: Str, value: Str): LineRead {
    match ReadValue(Trim(TrimEnd(value)))
    case Ok(v) => Bind(key, v)
    case Err(fault) => Refuse(fault)
  }

  /** The text after `=` is all the parser takes from a printed value. */
  lemma ReadLineOfBinding(key: Str, value: Str, allow: bool)
    requires LegalKey(key, allow)
    ensures ReadLine(Line(key, value), allow) == Said(key, value)
  {
    KeyUnitsArePlain(key);
    TrimOfPlain(key);
    var line := Line(key, TrimEnd(value));
    assert Line(key, value)[0] == key[0];
    TrimEndAfter(key, EQUALS, value);
    assert Trim(Line(key, value)) == line;
    assert line[0] == key[0];
    assert line[|key|] == EQUALS && forall i :: 0 <= i < |key| ==> line[i] == key[i];
    StripKeepsBinding(key, TrimEnd(value));
    FirstIndex(line, EQUALS, 0, |key|);
    assert line[..|key|] == key && line[|key| + 1..] == TrimEnd(value);
  }

  /** A key is never taken for the word `export`: no white space precedes its `=`. */
  lemma StripKeepsBinding(key: Str, value: Str)
    requires KeyShape(key)
    ensures StripExport(Line(key, value)) == Line(key, value)
  {
    KeyUnitsArePlain(key);
    var line := Line(key, value);
    assert line[|key|] == EQUALS;
    if |key| > 6 {
      assert line[6] == key[6];
    }
  }

  /** The source's bindings laid over `m`, key by key. */
  function Bound(keys: seq<Str>, src: Vars, m: Vars): Vars
    requires forall key :: key in keys ==> key in src
    decreases |keys|
  {
    if keys == [] then m else Bound(keys[1..], src, m[keys[0] := src[keys[0]]])
  }

  lemma {:induction false} BoundAt(keys: seq<Str>, src: Vars, m: Vars, k: Str)
    requires forall key :: key in keys ==> key in src
    ensures k in Bound(keys, src, m) <==> k in m || k in keys
    ensures k in keys ==> Bound(keys, src, m)[k] == src[k]
    ensures k in m && k !in keys ==> Bound(keys, src, m)[k] == m[k]
    decreases |keys|
  {
    if keys != [] {
      BoundAt(keys[1..], src, m[keys[0] := src[keys[0]]], k);
      assert k in keys <==> k == keys[0] || k in keys[1..];
    }
  }

  lemma BoundIsUnion(keys: seq<Str>, src: Vars, m: Vars)
    requires forall key :: key in keys <==> key in src
    ensures Bound(keys, src, m) == m + src
  {
    forall k ensures k in Bound(keys, src, m) <==> k in m + src {
      BoundAt(keys, src, m, k);
    }
    forall k | k in m + src ensures Bound(keys, src, m)[k] == (m + src)[k] {
      BoundAt(keys, src, m, k);
    }
  }

  /** The printed lines, and the empty one after the last line break. */
  function LinesOf(keys: seq<Str>, src: Vars): seq<Str>
    requires forall key :: key in keys ==> key in src
  {
    if keys == [] then [[]] else [Line(keys[0], src[keys[0]])] + LinesOf(keys[1..], src)
  }

  lemma {:induction false} RenderedLines(keys: seq<Str>, src: Vars)
    requires forall key :: key in keys ==> key in src && KeyShape(key) && LineFree(src[key])
    ensures SplitLines(Render(keys, src)) == LinesOf(keys, src)
  {
    if keys != [] {
      var line := Line(keys[0], src[keys[0]]);
      KeyUnitsArePlain(keys[0]);
      OneLine(line);
      RenderedLines(keys[1..], src);
      SplitLinesOfJoin(line, Render(keys[1..], src));
    }
  }

  /** What the printed lines say to the parser. */
  function SaidOf(keys: seq<Str>, src: Vars): seq<LineRead>
    requires forall key :: key in keys ==> key in src
  {
    if keys == [] then [Skip] else [Said(keys[0], src[keys[0]])] + SaidOf(keys[1..], src)
  }

  lemma EmptyLineIsSkipped(allow: bool)
    ensures ReadAll([[]], allow) == [Skip] && forall n, vars :: TakeAll([Skip], n, vars) == Ok(vars)
  {
    MapAt(Reader(allow), [[]]);
    assert [Skip][1..] == [];
  }

  lemma {:induction false} RenderedIsSaid(keys: seq<Str>, src: Vars, allow: bool)
    requires forall key :: key in keys ==> key in src && LegalKey(key, allow)
    ensures ReadAll(LinesOf(keys, src), allow) == SaidOf(keys, src)
  {
    if keys == [] {
      EmptyLineIsSkipped(allow);
    } else {
      ReadLineOfBinding(keys[0], src[keys[0]], allow);
      RenderedIsSaid(keys[1..], src, allow);
      assert LinesOf(keys, src)[1..] == LinesOf(keys[1..], src);
    }
  }

  predicate AllPrintable(keys: seq<Str>, src: Vars)
    requires forall key :: key in keys ==> key in src
  {
    forall key :: key in keys ==> Printable(src[key])
  }

  /** Whatever the printed lines parse to, a key they do not name is as it was. */
  lemma {:induction false} OthersKept(keys: seq<Str>, src: Vars, n: nat, m: Vars, k: Str)
    requires forall key :: key in keys ==> key in src
    requires k !in keys && TakeAll(SaidOf(keys, src), n, m).Ok?
    ensures Looked(TakeAll(SaidOf(keys, src), n, m).value, k) == Looked(m, k)
    decreases |keys|
  {
    if keys != [] {
      assert SaidOf(keys, src)[1..] == SaidOf(keys[1..], src);
      OthersKept(keys[1..], src, n + 1, m[keys[0] := ReadValue(Trim(TrimEnd(src[keys[0]]))).value], k);
    }
  }

  /** Printed lines parse to the printed bindings exactly when every value is printable. */
  lemma {:induction false} TakeAllOfRendered(keys: seq<Str>, src: Vars, n: nat, m: Vars)
    requires Distinct(keys) && forall key :: key in keys ==> key in src && LineFree(src[key])
    ensures TakeAll(SaidOf(keys, src), n, m) == Ok(Bound(keys, src, m)) <==> AllPrintable(keys, src)
    decreases |keys|
  {
    if keys == [] {
      assert SaidOf(keys, src)[1..] == [];
    } else {
      var key, rest := keys[0], keys[1..];
      assert key !in rest && forall k :: k in keys <==> k == key || k in rest;
      assert SaidOf(keys, src)[1..] == SaidOf(rest, src);
      ReadBackIff(src[key]);
      var read := ReadValue(Trim(TrimEnd(src[key])));
      if read == Ok(src[key]) {
        TakeAllOfRendered(rest, src, n + 1, m[key := src[key]]);
      } else if read.Ok? && TakeAll(SaidOf(rest, src), n + 1, m[key := read.value]).Ok? {
        OthersKept(rest, src, n + 1, m[key := read.value], key);
        BoundAt(keys, src, m, key);
      }
    }
  }

  /** After any text and a line break, a parse goes on with what the further lines say. */
  lemma ParseGoesOn(read: Str -> LineRead, front: Str, more: Str, said: seq<LineRead>)
    requires ParseBy(read, front).Ok? && Map(read, SplitLines(more)) == said
    ensures ParseBy(read, front + ([LF] + more)) == TakeAll(said, 1 + |SplitLines(front)|, ParseBy(read, front).value)
  {
    SplitLinesOfJoin(front, more);
    TakeAllOfMore(read, SplitLines(front), SplitLines(more), 1, map[]);
  }

  predicate AllValuesPrintable(vars: Vars) { forall k :: k in vars ==> Printable(vars[k]) }

  predicate AllKeysLegal(vars: Vars, allow: bool) { forall k :: k in vars ==> LegalKey(k, allow) }

  /** What the printed lines of these pairs say to the parser. */
  function SaidOfPairs(ps: Pairs): seq<LineRead>
    requires DistinctKeys(ps)
  {
    WriteOrderOf(ps);
    SaidOf(WriteOrder(KeysOf(ps)), ToMap(ps))
  }

  lemma SerializedIsSaid(ps: Pairs, allow: bool)
    requires DistinctKeys(ps) && AllKeysLegal(ToMap(ps), allow) && AllLineFree(ToMap(ps))
    ensures ReadAll(SplitLines(Serialize(ps)), allow) == SaidOfPairs(ps)
  {
    WriteOrderOf(ps);
    RenderedLines(WriteOrder(KeysOf(ps)), ToMap(ps));
    RenderedIsSaid(WriteOrder(KeysOf(ps)), ToMap(ps), allow);
  }

  /** Taking in the printed pairs over `m` lays them over it exactly when every value is printable. */
  lemma TakeAllOfPairs(ps: Pairs, n: nat, m: Vars)
    requires DistinctKeys(ps) && AllLineFree(ToMap(ps))
    ensures TakeAll(SaidOfPairs(ps), n, m) == Ok(m + ToMap(ps)) <==> AllValuesPrintable(ToMap(ps))
  {
    WriteOrderOf(ps);
    BoundIsUnion(WriteOrder(KeysOf(ps)), ToMap(ps), m);
    TakeAllOfRendered(WriteOrder(KeysOf(ps)), ToMap(ps), n, m);
  }

  lemma OverNothing(m: Vars)
    ensures map[] + m == m
  {
  }

  lemma SaidParsesIff(ps: Pairs, parsed: Result<Vars, ConfigFileError>)
    requires DistinctKeys(ps) && AllLineFree(ToMap(ps)) && parsed == TakeAll(SaidOfPairs(ps), 1, map[])
    ensures parsed == Ok(ToMap(ps)) <==> AllValuesPrintable(ToMap(ps))
  {
    TakeAllOfPairs(ps, 1, map[]);
    OverNothing(ToMap(ps));
  }

  lemma LineBreaksAreLost(ps: Pairs, parsed: Result<Vars, ConfigFileError>)
    requires !AllLineFree(ToMap(ps)) && (parsed.Ok? ==> AllLineFree(parsed.value))
    ensures parsed != Ok(ToMap(ps)) && !AllValuesPrintable(ToMap(ps))
  {
  }

  lemma {:induction false} TakenKeysAreLegal(said: seq<LineRead>, n: nat, vars: Vars, allow: bool)
    requires (forall i :: 0 <= i < |said| && said[i].Bind? ==> LegalKey(said[i].key, allow)) && AllKeysLegal(vars, allow)
    ensures TakeAll(said, n, vars).Ok? ==> AllKeysLegal(TakeAll(said, n, vars).value, allow)
    decreases |said|
  {
    if said != [] {
      match said[0]
      case Skip => TakenKeysAreLegal(said[1..], n + 1, vars, allow);
      case Bind(key, value) => TakenKeysAreLegal(said[1..], n + 1, vars[key := value], allow);
      case Refuse(_) =>
    }
  }

  lemma BoundKeyIsLegal(text: Str, allow: bool)
    ensures ReadLine(text, allow).Bind? ==> LegalKey(ReadLine(text, allow).key, allow)
  {
  }

  /** Only legal keys are ever bound. */
  lemma ParsedKeysAreLegal(text: Str, allow: bool)
    ensures Parse(text, allow).Ok? ==> AllKeysLegal(Parse(text, allow).value, allow)
  {
    var lines := SplitLines(text);
    MapAt(Reader(allow), lines);
    forall i | 0 <= i < |lines| && ReadAll(lines, allow)[i].Bind? ensures LegalKey(ReadAll(lines, allow)[i].key, allow) {
      BoundKeyIsLegal(lines[i], allow);
    }
    TakenKeysAreLegal(ReadAll(lines, allow), 1, map[], allow);
  }

  lemma LegalParsesBackIff(ps: Pairs, allow: bool)
    requires DistinctKeys(ps) && AllKeysLegal(ToMap(ps), allow)
    ensures Parse(Serialize(ps), allow) == Ok(ToMap(ps)) <==> AllValuesPrintable(ToMap(ps))
  {
    if AllLineFree(ToMap(ps)) {
      SerializedIsSaid(ps, allow);
      SaidParsesIff(ps, Parse(Serialize(ps), allow));
    } else {
      ParsedIsLineFree(Serialize(ps), allow);
      LineBreaksAreLost(ps, Parse(Serialize(ps), allow));
    }
  }

  /** Parsing undoes serializing, for any record, exactly when every key is legal and every value printable. */
  lemma ParseUndoesSerializeIff(ps: Pairs, allow: bool)
    requires DistinctKeys(ps)
    ensures Parse(Serialize(ps), allow) == Ok(ToMap(ps)) <==> AllKeysLegal(ToMap(ps), allow) && AllValuesPrintable(ToMap(ps))
  {
    if AllKeysLegal(ToMap(ps), allow) {
      LegalParsesBackIff(ps, allow);
    } else {
      ParsedKeysAreLegal(Serialize(ps), allow);
    }
  }
}
