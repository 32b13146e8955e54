/** The completion model of the REPL prompt (packages/cli/src/input/completion.ts). */
module Completion {
  import opened Sequences
  import opened Wrappers
  import opened Utf16
  import opened EnvFile
  import opened ReplMeta

  const BLANK: Unit := 0x20

  datatype ServiceSource = ServiceSource(connectable: seq<Str>, connected: seq<Str>)

  datatype Completion = Completion(value: Str, expectsArg: bool)

  /** `filterCommands`: the commands a bare `:`-stem can become. */
  function FilterCommands(input: Str): seq<Completion> {
    if input == [] || input[0] != COLON || BLANK in input then []
    else Map((c: MetaCommand) => Completion(c.name, c.takesService), Filter((c: MetaCommand) => input <= c.name, META_COMMANDS))
  }

  function Candidates(command: Str, services: ServiceSource): seq<Str> {
    if command == CONNECT then services.connectable
    else if command == DISCONNECT then services.connected
    else []
  }

  /** `filterServiceArgs`: the services an argument stem can become. */
  function FilterServiceArgs(command: Str, stem: Str, services: ServiceSource): seq<Completion> {
    Map((s: Str) => Completion(s, false), Filter((s: Str) => stem <= s, Candidates(command, services)))
  }

  /** `computeCompletions`. */
  function ComputeCompletions(input: Str, services: ServiceSource): seq<Completion> {
    match IndexOf(input, BLANK, 0)
    case None => FilterCommands(input)
    case Some(firstSpace) =>
      var argRegion := input[firstSpace + 1..];
      if BLANK in argRegion then [] else FilterServiceArgs(input[..firstSpace], argRegion, services)
  }

  datatype MenuState = MenuState(items: seq<Completion>, index: nat, isOpen: bool)

  const CLOSED_MENU := MenuState([], 0, false)

  datatype MenuAction = SetItems(items: seq<Completion>) | MoveUp | MoveDown | Dismiss

  /** `reduceMenu`. */
  function ReduceMenu(m: MenuState, a: MenuAction): MenuState {
    match a
    case SetItems(items) => MenuState(items, 0, items != [])
    case Dismiss => m.(isOpen := false)
    case MoveUp => if !m.isOpen || m.items == [] then m else m.(index := (m.index + |m.items| - 1) % |m.items|)
    case MoveDown => if !m.isOpen || m.items == [] then m else m.(index := (m.index + 1) % |m.items|)
  }

  // ---------------------------------------------------------------------
  // Moving the highlight
  // ---------------------------------------------------------------------

  lemma SmallMod(x: int, n: int)
    requires 0 <= x < n
    ensures x % n == x
  {
  }

  lemma ModOnce(x: int, n: int)
    requires 0 < n <= x < 2 * n
    ensures x % n == x - n
  {
    var q := x / n;
    assert x == q * n + x % n;
    assert q <= 0 ==> q * n <= 0;
    assert q >= 2 ==> q * n >= 2 * n;
    assert q == 1;
  }

  lemma ModNegative(x: int, n: int)
    requires 0 < n && -n <= x < 0
    ensures x % n == x + n
  {
    var q := x / n;
    assert x == q * n + x % n;
    assert q <= -2 ==> q * n <= -2 * n;
    assert q >= 0 ==> q * n >= 0;
    assert q == -1;
  }

  /** On an open menu Down and Up go to the neighbouring item, wrapping round, and undo each other. */
  lemma MenuSteps(m: MenuState)
    requires m.isOpen && m.items != [] && m.index < |m.items|
    ensures ReduceMenu(m, MoveDown) == m.(index := if m.index + 1 == |m.items| then 0 else m.index + 1)
    ensures ReduceMenu(m, MoveUp) == m.(index := if m.index == 0 then |m.items| - 1 else m.index - 1)
    ensures ReduceMenu(ReduceMenu(m, MoveDown), MoveUp) == m && ReduceMenu(ReduceMenu(m, MoveUp), MoveDown) == m
  {
    var n, i := |m.items|, m.index;
    if i + 1 == n {
      ModOnce(i + 1, n);
    } else {
      SmallMod(i + 1, n);
      ModOnce(i + 1 + n - 1, n);
    }
    if i == 0 {
      SmallMod(n - 1, n);
      ModOnce(n, n);
    } else {
      ModOnce(i + n - 1, n);
      SmallMod(i, n);
    }
  }

  /** Down `k` times. */
  function Downs(m: MenuState, k: nat): MenuState { if k == 0 then m else ReduceMenu(Downs(m, k - 1), MoveDown) }

  /** On a fresh menu of n items the k-th Down highlights item k, and the n-th comes back to the first. */
  lemma {:induction false} DownsWalkTheMenu(items: seq<Completion>, k: nat)
    requires items != [] && k <= |items|
    ensures Downs(ReduceMenu(CLOSED_MENU, SetItems(items)), k) == MenuState(items, if k == |items| then 0 else k, true)
  {
    if k > 0 {
      DownsWalkTheMenu(items, k - 1);
      MenuSteps(Downs(ReduceMenu(CLOSED_MENU, SetItems(items)), k - 1));
    }
  }

  // ---------------------------------------------------------------------
  // What is offered
  // ---------------------------------------------------------------------

  lemma IndexOfMeaning(s: Str, u: Unit, from: nat)
    ensures IndexOf(s, u, from).Some? ==>
      s[IndexOf(s, u, from).value] == u && forall i :: from <= i < IndexOf(s, u, from).value ==> s[i] != u
    ensures IndexOf(s, u, from).None? ==> forall i :: from <= i < |s| ==> s[i] != u
    decreases |s| - from
  {
    if from < |s| && s[from] != u {
      IndexOfMeaning(s, u, from + 1);
    }
  }

  /** `:connect` takes a service to connect, `:disconnect` a connected one, and no other command takes any. */
  lemma CandidatesByCommand(command: Str, services: ServiceSource)
    ensures command == Ascii(":connect") ==> Candidates(command, services) == services.connectable
    ensures command == Ascii(":disconnect") ==> Candidates(command, services) == services.connected
    ensures command != Ascii(":connect") && command != Ascii(":disconnect") ==> Candidates(command, services) == []
  {
    assert |Ascii(":connect")| == 8 && |Ascii(":disconnect")| == 11;
  }

  /** At the command stage: exactly the commands that extend the stem, as the table has them. */
  lemma CommandsOffered(input: Str, services: ServiceSource, item: Completion)
    requires BLANK !in input
    ensures item in ComputeCompletions(input, services)
       <==> input != [] && input[0] == COLON && input <= item.value && MetaCommand(item.value, item.expectsArg) in META_COMMANDS
  {
    IndexOfMeaning(input, BLANK, 0);
    var p := (c: MetaCommand) => input <= c.name;
    MapMembers((c: MetaCommand) => Completion(c.name, c.takesService), Filter(p, META_COMMANDS), item);
    FilterMembers(p, META_COMMANDS, MetaCommand(item.value, item.expectsArg));
    if c :| c in Filter(p, META_COMMANDS) && Completion(c.name, c.takesService) == item {
      assert c == MetaCommand(item.value, item.expectsArg);
    }
  }

  /** At the argument stage: exactly the command's services that extend the stem. */
  lemma ServicesOffered(command: Str, stem: Str, services: ServiceSource, item: Completion)
    ensures item in FilterServiceArgs(command, stem, services)
       <==> !item.expectsArg && stem <= item.value && item.value in Candidates(command, services)
  {
    var p := (s: Str) => stem <= s;
    MapMembers((s: Str) => Completion(s, false), Filter(p, Candidates(command, services)), item);
    FilterMembers(p, Candidates(command, services), item.value);
  }

  /** A buffer of a command, a space and a stem. */
  lemma ArgumentStage(input: Str, services: ServiceSource)
    requires IndexOf(input, BLANK, 0).Some?
    ensures var at := IndexOf(input, BLANK, 0).value;
      && input == ServiceLine(input[..at], input[at + 1..])
      && (BLANK !in input[at + 1..] ==>
            ComputeCompletions(input, services) == FilterServiceArgs(input[..at], input[at + 1..], services))
      && (ComputeCompletions(input, services) != [] ==> BLANK !in input[at + 1..] && TakesService(input[..at]))
  {
    IndexOfMeaning(input, BLANK, 0);
    var at := IndexOf(input, BLANK, 0).value;
    assert input == input[..at] + ([input[at]] + input[at + 1..]);
    if !TakesService(input[..at]) {
      assert Candidates(input[..at], services) == [];
    }
  }
}
