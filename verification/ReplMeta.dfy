/** The REPL's line parser (packages/cli/src/commands/repl-meta.ts). */
module ReplMeta {
  import opened Sequences
  import opened Wrappers
  import opened Utf16
  import opened EnvFile

  datatype ReplInput =
    | Chat(text: Str)
    | Connect(service: Str)
    | Disconnect(service: Str)
    | Status | Cap | Kill | Clear | Help | Exit | Quit | Blank
    | UsageError(command: Str)
    | UnknownCommand(head: Str)

  const COLON: Unit := 0x3A

  const HELP := Ascii(":help")
  const STATUS := Ascii(":status")
  const CAP := Ascii(":cap")
  const CONNECT := Ascii(":connect")
  const DISCONNECT := Ascii(":disconnect")
  const CLEAR := Ascii(":clear")
  const KILL := Ascii(":kill")
  const QUIT := Ascii(":quit")
  const EXIT := Ascii(":exit")

  const DOT_EXIT := Ascii(".exit")
  const DOT_QUIT := Ascii(".quit")

  datatype MetaCommand = MetaCommand(name: Str, takesService: bool)

  const META_COMMANDS: seq<MetaCommand> := [
    MetaCommand(HELP, false), MetaCommand(STATUS, false), MetaCommand(CAP, false),
    MetaCommand(CONNECT, true), MetaCommand(DISCONNECT, true),
    MetaCommand(CLEAR, false), MetaCommand(KILL, false), MetaCommand(QUIT, false), MetaCommand(EXIT, false)
  ]

  /** `s.split(/\s+/)`: cut at every run of white space. */
  function SplitRuns(s: Str): (r: seq<Str>)
    ensures r != []
    decreases |s|
  {
    if s == [] then [[]]
    else if IsSpace(s[0]) then [[]] + SplitRuns(TrimStart(s[1..]))
    else
      var rest := SplitRuns(s[1..]);
      [[s[0]] + rest[0]] + rest[1..]
  }

  /** The command a `:` line names, with its first argument. */
  function ParseCommand(head: Str, rest: seq<Str>): ReplInput {
    if head == HELP[1..] then Help
    else if head == STATUS[1..] then Status
    else if head == CAP[1..] then Cap
    else if head == KILL[1..] then Kill
    else if head == CLEAR[1..] then Clear
    else if head == CONNECT[1..] then (if rest == [] || rest[0] == [] then UsageError(CONNECT) else Connect(rest[0]))
    else if head == DISCONNECT[1..] then (if rest == [] || rest[0] == [] then UsageError(DISCONNECT) else Disconnect(rest[0]))
    else UnknownCommand(head)
  }

  /** `parseReplLine`. */
  function ParseReplLine(line: Str): ReplInput {
    var trimmed := Trim(line);
    if trimmed == [] then Blank
    else if trimmed == EXIT || trimmed == DOT_EXIT then Exit
    else if trimmed == QUIT || trimmed == DOT_QUIT then Quit
    else if trimmed[0] != COLON then Chat(trimmed)
    else
      var parts := SplitRuns(trimmed[1..]);
      ParseCommand(parts[0], parts[1..])
  }

  // ---------------------------------------------------------------------
  // Lines of one command and at most one argument
  // ---------------------------------------------------------------------

  predicate NoSpaces(s: Str) { forall i :: 0 <= i < |s| ==> !IsSpace(s[i]) }

  lemma {:induction false} SplitOfOneWord(s: Str)
    requires NoSpaces(s)
    ensures SplitRuns(s) == [s]
  {
    if s != [] {
      SplitOfOneWord(s[1..]);
      assert [s[0]] + s[1..] == s;
    }
  }

  /** A word, one white-space unit, and the rest. */
  lemma {:induction false} SplitAfterWord(word: Str, u: Unit, rest: Str)
    requires NoSpaces(word) && IsSpace(u)
    ensures SplitRuns(word + ([u] + rest)) == [word] + SplitRuns(TrimStart(rest))
  {
    var all := word + ([u] + rest);
    if word == [] {
      assert all[1..] == rest;
    } else {
      assert all[1..] == word[1..] + ([u] + rest);
      SplitAfterWord(word[1..], u, rest);
      assert [word[0]] + word[1..] == word;
    }
  }

  /** No token of a split holds white space. */
  lemma {:induction false} TokensHaveNoSpaces(s: Str)
    ensures forall i :: 0 <= i < |SplitRuns(s)| ==> NoSpaces(SplitRuns(s)[i])
    decreases |s|
  {
    if s != [] {
      if IsSpace(s[0]) {
        TokensHaveNoSpaces(TrimStart(s[1..]));
      } else {
        TokensHaveNoSpaces(s[1..]);
      }
    }
  }

  lemma TrimOfOneWord(s: Str)
    requires NoSpaces(s)
    ensures Trim(s) == s
  {
  }

  /** A completed command line: the command, a space, and a service. */
  function ServiceLine(command: Str, service: Str): Str { command + ([0x20] + service) }

  predicate TakesService(command: Str) { command == CONNECT || command == DISCONNECT }

  lemma CommandWords(command: Str)
    requires TakesService(command)
    ensures NoSpaces(command) && command[0] == COLON && |command| > 5
  {
  }

  /** What a service-taking command means. */
  function ServiceCommand(command: Str, service: Str): ReplInput
    requires TakesService(command)
  {
    if command == CONNECT then Connect(service) else Disconnect(service)
  }

  lemma TrimOfServiceLine(command: Str, service: Str)
    requires TakesService(command)
    ensures Trim(ServiceLine(command, service)) == command + TrimEnd([0x20] + service)
  {
    CommandWords(command);
    var line, n := ServiceLine(command, service), |command| - 1;
    assert line[0] == command[0];
    assert line == command[..n] + ([command[n]] + ([0x20] + service));
    TrimEndAfter(command[..n], command[n], [0x20] + service);
    assert command[..n] + ([command[n]] + TrimEnd([0x20] + service)) == command + TrimEnd([0x20] + service);
  }

  lemma {:induction false} TrimEndKeepsStart(s: Str)
    ensures TrimEnd(s) <= s
  {
    if s != [] && IsSpace(s[|s| - 1]) {
      TrimEndKeepsStart(s[..|s| - 1]);
    }
  }

  /** What the parser sees of a service line: the command's word, then the tokens after it. */
  lemma PartsOfServiceLine(command: Str, service: Str) returns (rest: seq<Str>)
    requires TakesService(command)
    ensures ParseReplLine(ServiceLine(command, service)) == ParseCommand(command[1..], rest)
    ensures forall i :: 0 <= i < |rest| ==> NoSpaces(rest[i])
    ensures service != [] && NoSpaces(service) ==> rest == [service]
  {
    CommandWords(command);
    TrimOfServiceLine(command, service);
    var tail := TrimEnd([0x20] + service);
    TrimEndKeepsStart([0x20] + service);
    var trimmed := command + tail;
    assert trimmed[1..] == command[1..] + tail;
    NotExitOrQuit(command, tail);
    TokensHaveNoSpaces(trimmed[1..]);
    rest := SplitRuns(trimmed[1..])[1..];
    if tail == [] {
      JoinEmpty(command[1..]);
      SplitOfOneWord(command[1..]);
    } else {
      assert tail == [0x20] + tail[1..];
      SplitAfterWord(command[1..], 0x20, tail[1..]);
    }
    if service != [] && NoSpaces(service) {
      assert ([0x20] + service)[|service|] == service[|service| - 1];
      assert tail == [0x20] + service && tail[1..] == service;
      SplitOfOneWord(service);
    }
  }

  lemma NotExitOrQuit(command: Str, tail: Str)
    requires TakesService(command)
    ensures command + tail != EXIT && command + tail != DOT_EXIT && command + tail != QUIT && command + tail != DOT_QUIT
  {
    CommandWords(command);
  }

  /** A command line with a service parses to that command on that service exactly when the service is one plain word. */
  lemma ServiceLineParsesIff(command: Str, service: Str)
    requires TakesService(command)
    ensures ParseReplLine(ServiceLine(command, service)) == ServiceCommand(command, service)
       <==> service != [] && NoSpaces(service)
  {
    var rest := PartsOfServiceLine(command, service);
    HeadsDiffer();
  }

  /** With no argument a service-taking command is a usage error. */
  lemma BareServiceCommand(command: Str)
    requires TakesService(command)
    ensures ParseReplLine(ServiceLine(command, [])) == UsageError(command)
  {
    CommandWords(command);
    TrimOfServiceLine(command, []);
    assert [0x20] + [] == [0x20] && [0x20 as Unit][..0] == [];
    assert TrimEnd([0x20]) == [];
    JoinEmpty(command);
    SplitOfOneWord(command[1..]);
    NotExitOrQuit(command, []);
    HeadsDiffer();
  }

  /** The words the parser switches on are all different. */
  lemma HeadsDiffer()
    ensures CONNECT[1..] != HELP[1..] && CONNECT[1..] != STATUS[1..] && CONNECT[1..] != CAP[1..]
    ensures CONNECT[1..] != KILL[1..] && CONNECT[1..] != CLEAR[1..] && CONNECT[1..] != DISCONNECT[1..]
    ensures DISCONNECT[1..] != HELP[1..] && DISCONNECT[1..] != STATUS[1..] && DISCONNECT[1..] != CAP[1..]
    ensures DISCONNECT[1..] != KILL[1..] && DISCONNECT[1..] != CLEAR[1..]
  {
  }

  /** What each command of the table means on its own, in the table's order. */
  const MEANINGS: seq<ReplInput> := [
    Help, Status, Cap, UsageError(CONNECT), UsageError(DISCONNECT), Clear, Kill, Quit, Exit
  ]

  /** Every command of the table parses to its own meaning. */
  lemma TableParses(i: nat)
    requires i < |META_COMMANDS|
    ensures |META_COMMANDS| == |MEANINGS| && ParseReplLine(META_COMMANDS[i].name) == MEANINGS[i]
  {
    var name := META_COMMANDS[i].name;
    assert NoSpaces(name) && name[0] == COLON;
    TrimOfOneWord(name);
    SplitOfOneWord(name[1..]);
    TableDiffers(i);
  }

  lemma TableDiffers(i: nat)
    requires i < |META_COMMANDS|
    ensures META_COMMANDS[i].name != DOT_EXIT && META_COMMANDS[i].name != DOT_QUIT
    ensures i < 7 ==> META_COMMANDS[i].name != EXIT && META_COMMANDS[i].name != QUIT
    ensures i == 7 ==> META_COMMANDS[i].name != EXIT
    ensures i < 7 ==> ParseCommand(META_COMMANDS[i].name[1..], []) == MEANINGS[i]
  {
    assert META_COMMANDS[i].name[0] == COLON && DOT_EXIT[0] == DOT_QUIT[0] == 0x2E;
    assert HELP[1] == 0x68 && KILL[1] == 0x6B && QUIT[1] == 0x71 && EXIT[1] == 0x65;
    HeadsDiffer();
  }

  /** A line that does not open with a colon is chat, except for nothing and for the two dotted ways out. */
  lemma PlainLines(line: Str)
    requires Trim(line) == [] || Trim(line)[0] != 0x3A
    ensures ParseReplLine(line) ==
      if Trim(line) == [] then Blank
      else if Trim(line) == Ascii(".exit") then Exit
      else if Trim(line) == Ascii(".quit") then Quit
      else Chat(Trim(line))
  {
    assert Ascii(":exit")[0] == 0x3A && Ascii(":quit")[0] == 0x3A;
  }

  /** One word behind a colon that is no command of the table is an unknown command. */
  lemma UnknownWords(word: Str)
    requires NoSpaces(word) && word != [] && forall i :: 0 <= i < |META_COMMANDS| ==> META_COMMANDS[i].name != [0x3A] + word
    ensures ParseReplLine([0x3A] + word) == UnknownCommand(word)
  {
    var line := [0x3A] + word;
    assert !IsSpace(0x3A) && line[|line| - 1] == word[|word| - 1];
    assert Trim(line) == line && line[1..] == word;
    SplitOfOneWord(word);
    forall i | 0 <= i < |META_COMMANDS| ensures word != META_COMMANDS[i].name[1..] {
      TableColon(i);
      assert META_COMMANDS[i].name != [0x3A] + word;
      assert META_COMMANDS[i].name == [0x3A] + META_COMMANDS[i].name[1..];
    }
    NamesInTable();
  }

  lemma TableColon(i: nat)
    requires i < |META_COMMANDS|
    ensures META_COMMANDS[i].name != [] && META_COMMANDS[i].name[0] == 0x3A
  {
  }

  lemma NamesInTable()
    ensures |META_COMMANDS| == 9
    ensures META_COMMANDS[0].name == HELP && META_COMMANDS[1].name == STATUS && META_COMMANDS[2].name == CAP
    ensures META_COMMANDS[3].name == CONNECT && META_COMMANDS[4].name == DISCONNECT
    ensures META_COMMANDS[5].name == CLEAR && META_COMMANDS[6].name == KILL
    ensures META_COMMANDS[7].name == QUIT && META_COMMANDS[8].name == EXIT
  {
  }
}
