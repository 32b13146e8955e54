/** The keypress reducer of the raw-mode line editor (packages/cli/src/input/line-editor.ts). */
module LineEditor {
  import opened Sequences
  import opened Wrappers
  import opened Utf16
  import opened EnvFile
  import opened ReplMeta
  import opened Completion

  datatype KeyName =
    | Return | Enter | Tab | Up | Down | Escape | Left | Right | Home | End | Backspace | Delete
    | LetterC | LetterD | LetterA | LetterE | OtherName

  /** The raw sequence, as far as it matters: the two bracketed-paste markers, or anything else. */
  datatype KeySequence = PasteStart | PasteEnd | Plain

  datatype KeyEvent = KeyEvent(name: KeyName, ctrl: bool, sequence: KeySequence, str: Str)

  datatype SelectionState = SelectionState(choices: seq<Str>, index: nat)

  datatype EditorState = EditorState(
    buffer: Str, cursor: nat, menu: MenuState, pasting: bool, selection: Option<SelectionState>)

  const EMPTY_STATE := EditorState([], 0, CLOSED_MENU, false, None)

  datatype EditorEffect = NoEffect | Submit(line: Str) | Close | Sigint

  datatype Reduced = Reduced(state: EditorState, effect: EditorEffect)

  const CR: Unit := 13

  function RefreshMenu(menu: MenuState, buffer: Str, services: ServiceSource): MenuState {
    ReduceMenu(menu, SetItems(ComputeCompletions(buffer, services)))
  }

  /** The buffer and menu after a completion is accepted. */
  datatype Accepted = Accepted(buffer: Str, menu: MenuState)

  function AcceptCompletion(buffer: Str, item: Completion, services: ServiceSource): Accepted {
    match IndexOf(buffer, BLANK, 0)
    case None =>
      var next := if item.expectsArg then item.value + [BLANK] else item.value;
      Accepted(next, if item.expectsArg then RefreshMenu(CLOSED_MENU, next, services) else CLOSED_MENU)
    case Some(firstSpace) => Accepted(ServiceLine(buffer[..firstSpace], item.value), CLOSED_MENU)
  }

  /** The menu is showing something to accept. */
  predicate Showing(s: EditorState) { s.menu.isOpen && s.menu.items != [] && s.menu.index < |s.menu.items| }

  function AcceptHighlighted(s: EditorState, services: ServiceSource): Accepted
    requires Showing(s)
  {
    AcceptCompletion(s.buffer, s.menu.items[s.menu.index], services)
  }

  /** The buffer after `text` is put in place of the units from `lo` to `hi`, with the menu recomputed. */
  function Edited(s: EditorState, lo: nat, hi: nat, text: Str, services: ServiceSource): (r: EditorState)
    requires lo <= hi <= |s.buffer|
    ensures r.cursor <= |r.buffer|
  {
    var buffer := s.buffer[..lo] + text + s.buffer[hi..];
    s.(buffer := buffer, cursor := lo + |text|, menu := RefreshMenu(s.menu, buffer, services))
  }

  /** `replace(/[\r\n]+/g, " ")`. */
  function FlattenBreaks(s: Str): Str {
    if s == [] then []
    else if s[0] != CR && s[0] != LF then [s[0]] + FlattenBreaks(s[1..])
    else if |s| > 1 && (s[1] == CR || s[1] == LF) then FlattenBreaks(s[1..])
    else [BLANK] + FlattenBreaks(s[1..])
  }

  predicate IsControlStr(s: Str) { |s| == 1 && (s[0] < 0x20 || s[0] == 0x7F) }

  function MoveSelection(s: EditorState, delta: int): EditorState
    requires s.selection.Some?
  {
    var sel := s.selection.value;
    var n := |sel.choices|;
    s.(selection := Some(sel.(index := if n == 0 then 0 else (sel.index + delta) % n)))
  }

  /** `reduceSelection`. */
  function ReduceSelection(s: EditorState, key: KeyEvent): (r: Reduced)
    requires s.cursor <= |s.buffer| && s.selection.Some?
    ensures r.state.cursor <= |r.state.buffer|
  {
    var sel := s.selection.value;
    if key.ctrl && key.name.LetterC? then Reduced(s, Sigint)
    else if key.ctrl && key.name.LetterD? then Reduced(s, Close)
    else if key.name.Up? then Reduced(MoveSelection(s, -1), NoEffect)
    else if key.name.Down? || key.name.Tab? then Reduced(MoveSelection(s, 1), NoEffect)
    else if key.name.Return? || key.name.Enter? then
      Reduced(EMPTY_STATE, Submit(if sel.index < |sel.choices| then sel.choices[sel.index] else []))
    else if |key.str| == 1 && 0x31 <= key.str[0] <= 0x39 && key.str[0] - 0x31 < |sel.choices| then
      Reduced(s.(selection := Some(sel.(index := key.str[0] - 0x31))), NoEffect)
    else Reduced(s, NoEffect)
  }

  /** A key inside a bracketed paste. */
  function ReducePaste(s: EditorState, key: KeyEvent, services: ServiceSource): (r: Reduced)
    requires s.cursor <= |s.buffer|
    ensures r.state.cursor <= |r.state.buffer|
  {
    if key.name.Escape? then Reduced(s.(pasting := false), NoEffect)
    else if key.ctrl && key.name.LetterC? then Reduced(s.(pasting := false), Sigint)
    else if key.str == [] then Reduced(s, NoEffect)
    else Reduced(Edited(s, s.cursor, s.cursor, FlattenBreaks(key.str), services), NoEffect)
  }

  function ReduceControl(s: EditorState, name: KeyName): (r: Reduced)
    requires s.cursor <= |s.buffer|
    ensures r.state.cursor <= |r.state.buffer|
  {
    match name
    case LetterC => Reduced(s, Sigint)
    case LetterD => Reduced(s, if s.buffer == [] then Close else NoEffect)
    case LetterA => Reduced(s.(cursor := 0), NoEffect)
    case LetterE => Reduced(s.(cursor := |s.buffer|), NoEffect)
    case _ => Reduced(s, NoEffect)
  }

  /** Take the highlighted completion and stay on the line. */
  function Accept(s: EditorState, services: ServiceSource): (r: EditorState)
    requires Showing(s)
    ensures r.cursor == |r.buffer|
  {
    var a := AcceptHighlighted(s, services);
    s.(buffer := a.buffer, cursor := |a.buffer|, menu := a.menu)
  }

  function ReduceEnter(s: EditorState, services: ServiceSource): (r: Reduced)
    ensures r.state.cursor <= |r.state.buffer|
  {
    if Showing(s) then
      var a := AcceptHighlighted(s, services);
      if a.menu.isOpen then Reduced(Accept(s, services), NoEffect) else Reduced(EMPTY_STATE, Submit(a.buffer))
    else Reduced(EMPTY_STATE, Submit(s.buffer))
  }

  /** A key on the line itself. */
  function ReduceLine(s: EditorState, key: KeyEvent, services: ServiceSource): (r: Reduced)
    requires s.cursor <= |s.buffer|
    ensures r.state.cursor <= |r.state.buffer|
  {
    match key.name
    case Return => ReduceEnter(s, services)
    case Enter => ReduceEnter(s, services)
    case Tab =>
      Reduced(if Showing(s) then Accept(s, services) else s.(menu := RefreshMenu(s.menu, s.buffer, services)), NoEffect)
    case Up => Reduced(s.(menu := ReduceMenu(s.menu, MoveUp)), NoEffect)
    case Down => Reduced(s.(menu := ReduceMenu(s.menu, MoveDown)), NoEffect)
    case Escape => Reduced(s.(menu := ReduceMenu(s.menu, Dismiss)), NoEffect)
    case Left => Reduced(s.(cursor := if s.cursor == 0 then 0 else s.cursor - 1), NoEffect)
    case Right =>
      Reduced(if Showing(s) then Accept(s, services) else s.(cursor := if s.cursor < |s.buffer| then s.cursor + 1 else |s.buffer|), NoEffect)
    case Home => Reduced(s.(cursor := 0), NoEffect)
    case End => Reduced(s.(cursor := |s.buffer|), NoEffect)
    case Backspace => Reduced(if s.cursor == 0 then s else Edited(s, s.cursor - 1, s.cursor, [], services), NoEffect)
    case Delete => Reduced(if s.cursor == |s.buffer| then s else Edited(s, s.cursor, s.cursor + 1, [], services), NoEffect)
    case _ =>
      Reduced(if key.str == [] || IsControlStr(key.str) then s else Edited(s, s.cursor, s.cursor, key.str, services), NoEffect)
  }

  /** `reduceKey`. */
  function ReduceKey(s: EditorState, key: KeyEvent, services: ServiceSource): (r: Reduced)
    requires s.cursor <= |s.buffer|
    ensures r.state.cursor <= |r.state.buffer|
  {
    if key.sequence.PasteStart? then Reduced(s.(pasting := true), NoEffect)
    else if key.sequence.PasteEnd? then Reduced(s.(pasting := false), NoEffect)
    else if s.selection.Some? then ReduceSelection(s, key)
    else if s.pasting then ReducePaste(s, key, services)
    else if key.ctrl then ReduceControl(s, key.name)
    else ReduceLine(s, key, services)
  }

  // ---------------------------------------------------------------------
  // Every keystroke sequence
  // ---------------------------------------------------------------------

  /** The cursor is in the buffer, an open menu is the buffer's completions, and highlights are in range. */
  predicate Sound(s: EditorState, services: ServiceSource) {
    && s.cursor <= |s.buffer|
    && (s.menu.isOpen ==> s.menu.items == ComputeCompletions(s.buffer, services) && s.menu.items != [])
    && (s.menu.items != [] ==> s.menu.index < |s.menu.items|)
    && (s.selection.Some? ==>
          if s.selection.value.choices == [] then s.selection.value.index == 0
          else s.selection.value.index < |s.selection.value.choices|)
  }

  /**
   * The menu is recomputed under the lists of the moment: the text changed, or
   * Tab asked for it on the line. A menu closed since is sound under any lists.
   */
  predicate Recomputes(s: EditorState, key: KeyEvent, next: EditorState) {
    next.buffer != s.buffer || (OnLine(s) && key.sequence.Plain? && !key.ctrl && key.name.Tab?)
  }

  predicate OnLine(s: EditorState) { s.selection.None? && !s.pasting }

  lemma {:induction false} FlattenedIsText(s: Str)
    ensures FlattenBreaks(s) == [] <==> s == []
  {
    if s != [] {
      FlattenedIsText(s[1..]);
    }
  }

  lemma InsertingChanges(s: EditorState, text: Str, listed: ServiceSource, services: ServiceSource)
    requires Sound(s, listed) && text != []
    ensures Edited(s, s.cursor, s.cursor, text, services).buffer != s.buffer
    ensures Sound(Edited(s, s.cursor, s.cursor, text, services), services)
  {
    assert |s.buffer[..s.cursor] + text + s.buffer[s.cursor..]| == |s.buffer| + |text|;
  }

  lemma RemovingChanges(s: EditorState, lo: nat, listed: ServiceSource, services: ServiceSource)
    requires Sound(s, listed) && lo < |s.buffer|
    ensures Edited(s, lo, lo + 1, [], services).buffer != s.buffer
    ensures Sound(Edited(s, lo, lo + 1, [], services), services)
  {
    assert |s.buffer[..lo] + [] + s.buffer[lo + 1..]| == |s.buffer| - 1;
  }

  lemma AcceptIsSound(s: EditorState, listed: ServiceSource, services: ServiceSource)
    requires Sound(s, listed) && Showing(s)
    ensures Sound(Accept(s, services), services)
    ensures Accept(s, services).buffer == s.buffer ==> Sound(Accept(s, services), listed)
  {
    if IndexOf(s.buffer, BLANK, 0).None? && s.menu.items[s.menu.index].expectsArg {
      var next := s.menu.items[s.menu.index].value + [BLANK];
      IndexOfMeaning(s.buffer, BLANK, 0);
      assert next[|next| - 1] == BLANK;
    }
  }

  lemma MenuMoveIsSound(s: EditorState, a: MenuAction, listed: ServiceSource)
    requires Sound(s, listed) && !a.SetItems?
    ensures Sound(s.(menu := ReduceMenu(s.menu, a)), listed)
  {
  }

  /** Sound under the lists the menu was last computed from. */
  predicate SoundAfter(s: EditorState, key: KeyEvent, next: EditorState, listed: ServiceSource, services: ServiceSource) {
    Sound(next, if Recomputes(s, key, next) then services else listed)
  }

  lemma EnterIsSound(s: EditorState, key: KeyEvent, listed: ServiceSource, services: ServiceSource)
    requires Sound(s, listed)
    ensures SoundAfter(s, key, ReduceEnter(s, services).state, listed, services)
  {
    if Showing(s) {
      AcceptIsSound(s, listed, services);
    }
  }

  lemma TabIsSound(s: EditorState, key: KeyEvent, listed: ServiceSource, services: ServiceSource)
    requires Sound(s, listed) && OnLine(s) && key.sequence.Plain? && !key.ctrl && key.name.Tab?
    ensures SoundAfter(s, key, ReduceLine(s, key, services).state, listed, services)
  {
    if Showing(s) {
      AcceptIsSound(s, listed, services);
    }
  }

  lemma RightIsSound(s: EditorState, key: KeyEvent, listed: ServiceSource, services: ServiceSource)
    requires Sound(s, listed) && key.name.Right?
    ensures SoundAfter(s, key, ReduceLine(s, key, services).state, listed, services)
  {
    if Showing(s) {
      AcceptIsSound(s, listed, services);
    }
  }

  lemma RemovalIsSound(s: EditorState, key: KeyEvent, listed: ServiceSource, services: ServiceSource)
    requires Sound(s, listed) && (key.name.Backspace? || key.name.Delete?)
    ensures SoundAfter(s, key, ReduceLine(s, key, services).state, listed, services)
  {
    if key.name.Backspace? && s.cursor > 0 {
      RemovingChanges(s, s.cursor - 1, listed, services);
    }
    if key.name.Delete? && s.cursor < |s.buffer| {
      RemovingChanges(s, s.cursor, listed, services);
    }
  }

  predicate IsText(name: KeyName) { name.OtherName? || name.LetterA? || name.LetterC? || name.LetterD? || name.LetterE? }

  lemma TypingIsSound(s: EditorState, key: KeyEvent, listed: ServiceSource, services: ServiceSource)
    requires Sound(s, listed) && IsText(key.name)
    ensures SoundAfter(s, key, ReduceLine(s, key, services).state, listed, services)
  {
    if key.str != [] {
      InsertingChanges(s, key.str, listed, services);
    }
  }

  predicate IsMove(name: KeyName) { name.Up? || name.Down? || name.Escape? || name.Left? || name.Home? || name.End? }

  lemma MoveIsSound(s: EditorState, key: KeyEvent, listed: ServiceSource, services: ServiceSource)
    requires Sound(s, listed) && IsMove(key.name)
    ensures SoundAfter(s, key, ReduceLine(s, key, services).state, listed, services)
  {
    match key.name
    case Up => MenuMoveIsSound(s, MoveUp, listed);
    case Down => MenuMoveIsSound(s, MoveDown, listed);
    case Escape => MenuMoveIsSound(s, Dismiss, listed);
    case _ =>
  }

  lemma LineKeepsSound(s: EditorState, key: KeyEvent, listed: ServiceSource, services: ServiceSource)
    requires Sound(s, listed) && OnLine(s) && key.sequence.Plain? && !key.ctrl
    ensures SoundAfter(s, key, ReduceLine(s, key, services).state, listed, services)
  {
    match key.name
    case Return => EnterIsSound(s, key, listed, services);
    case Enter => EnterIsSound(s, key, listed, services);
    case Tab => TabIsSound(s, key, listed, services);
    case Right => RightIsSound(s, key, listed, services);
    case Backspace => RemovalIsSound(s, key, listed, services);
    case Delete => RemovalIsSound(s, key, listed, services);
    case OtherName => TypingIsSound(s, key, listed, services);
    case LetterA => TypingIsSound(s, key, listed, services);
    case LetterC => TypingIsSound(s, key, listed, services);
    case LetterD => TypingIsSound(s, key, listed, services);
    case LetterE => TypingIsSound(s, key, listed, services);
    case _ => MoveIsSound(s, key, listed, services);
  }

  lemma SelectionKeepsSound(s: EditorState, key: KeyEvent, listed: ServiceSource, services: ServiceSource)
    requires Sound(s, listed) && s.selection.Some?
    ensures SoundAfter(s, key, ReduceSelection(s, key).state, listed, services)
  {
  }

  lemma PasteKeepsSound(s: EditorState, key: KeyEvent, listed: ServiceSource, services: ServiceSource)
    requires Sound(s, listed) && s.pasting
    ensures SoundAfter(s, key, ReducePaste(s, key, services).state, listed, services)
  {
    FlattenedIsText(key.str);
    if key.str != [] {
      InsertingChanges(s, FlattenBreaks(key.str), listed, services);
    }
  }

  lemma ControlKeepsSound(s: EditorState, key: KeyEvent, listed: ServiceSource, services: ServiceSource)
    requires Sound(s, listed) && key.ctrl
    ensures SoundAfter(s, key, ReduceControl(s, key.name).state, listed, services)
  {
  }

  /** Whatever the service lists are now, the menu shown is that of the lists it was last computed from. */
  lemma KeyKeepsSound(s: EditorState, key: KeyEvent, listed: ServiceSource, services: ServiceSource)
    requires Sound(s, listed)
    ensures SoundAfter(s, key, ReduceKey(s, key, services).state, listed, services)
  {
    if !key.sequence.Plain? {
    } else if s.selection.Some? {
      SelectionKeepsSound(s, key, listed, services);
    } else if s.pasting {
      PasteKeepsSound(s, key, listed, services);
    } else if key.ctrl {
      ControlKeepsSound(s, key, listed, services);
    } else {
      LineKeepsSound(s, key, listed, services);
    }
  }

  /** What the shell feeds the reducer: a key, or a chooser to open. */
  datatype Input = Pressed(key: KeyEvent) | BeginSelection(choices: seq<Str>, defaultIndex: int)

  function Clamp(i: int, n: nat): nat { if n == 0 || i < 0 then 0 else if i < n then i else n - 1 }

  function Step(s: EditorState, input: Input, services: ServiceSource): EditorState
    requires s.cursor <= |s.buffer|
  {
    match input
    case Pressed(key) => ReduceKey(s, key, services).state
    case BeginSelection(choices, at) => EMPTY_STATE.(selection := Some(SelectionState(choices, Clamp(at, |choices|))))
  }

  /** Consecutive states of a run from a blank prompt, with the service lists of each moment. */
  ghost predicate EditorRun(states: seq<EditorState>, inputs: seq<Input>, lists: seq<ServiceSource>) {
    && |states| == |inputs| + 1 == |lists| && states[0] == EMPTY_STATE
    && forall k :: 0 <= k < |inputs| ==> states[k].cursor <= |states[k].buffer| && states[k + 1] == Step(states[k], inputs[k], lists[k + 1])
  }

  /** The input computes the menu anew. */
  predicate Refreshes(s: EditorState, input: Input, next: EditorState) {
    input.Pressed? && Recomputes(s, input.key, next)
  }

  lemma StepKeepsSound(s: EditorState, input: Input, next: EditorState, listed: ServiceSource, services: ServiceSource)
    requires Sound(s, listed) && next == Step(s, input, services)
    ensures Sound(next, if Refreshes(s, input, next) then services else listed)
  {
    if input.Pressed? {
      KeyKeepsSound(s, input.key, listed, services);
    }
  }

  /** The step that led to the i-th state. */
  lemma RunStep(states: seq<EditorState>, inputs: seq<Input>, lists: seq<ServiceSource>, i: nat)
    requires EditorRun(states, inputs, lists) && 0 < i < |states|
    ensures states[i - 1].cursor <= |states[i - 1].buffer| && states[i] == Step(states[i - 1], inputs[i - 1], lists[i])
  {
    assert states[i - 1 + 1] == Step(states[i - 1], inputs[i - 1], lists[i - 1 + 1]);
  }

  /** The last moment up to k at which something was done anew; the start counts. */
  function LastFresh(anew: nat -> bool, k: nat): (r: nat)
    ensures r <= k
  {
    if k == 0 || anew(k) then k else LastFresh(anew, k - 1)
  }

  /** When the menu of the k-th state was last computed. */
  function Computed(states: seq<EditorState>, inputs: seq<Input>, k: nat): (r: nat)
    ensures r <= k
  {
    LastFresh(FreshIn(states, inputs), k)
  }

  function FreshIn(states: seq<EditorState>, inputs: seq<Input>): nat -> bool {
    k => 0 < k < |states| && k <= |inputs| && Refreshes(states[k - 1], inputs[k - 1], states[k])
  }

  /** What each step keeps, or sets up anew under its own lists, holds under the lists of the last such moment. */
  lemma {:induction false} HoldsSinceFresh(sound: (nat, ServiceSource) -> bool, anew: nat -> bool, lists: seq<ServiceSource>, k: nat)
    requires k < |lists| && sound(0, lists[0])
    requires forall i, l :: 0 <= i < |lists| - 1 && sound(i, l) ==> sound(i + 1, if anew(i + 1) then lists[i + 1] else l)
    ensures sound(k, lists[LastFresh(anew, k)])
  {
    if k > 0 {
      HoldsSinceFresh(sound, anew, lists, k - 1);
      assert sound(k - 1 + 1, if anew(k - 1 + 1) then lists[k - 1 + 1] else lists[LastFresh(anew, k - 1)]);
    }
  }

  /**
   * Every sequence of keys and choosers keeps the editor sound, the service
   * lists changing at will: an open menu is the completions of the buffer
   * under the lists of the moment it was last computed.
   */
  lemma EditorStaysSound(states: seq<EditorState>, inputs: seq<Input>, lists: seq<ServiceSource>, k: nat)
    requires EditorRun(states, inputs, lists) && k < |states|
    ensures Sound(states[k], lists[Computed(states, inputs, k)])
  {
    var sound := (i: nat, l: ServiceSource) => i < |states| && Sound(states[i], l);
    var anew := FreshIn(states, inputs);
    forall i, l | 0 <= i < |lists| - 1 && sound(i, l) ensures sound(i + 1, if anew(i + 1) then lists[i + 1] else l) {
      RunStep(states, inputs, lists, i + 1);
      StepKeepsSound(states[i], inputs[i], states[i + 1], l, lists[i + 1]);
    }
    HoldsSinceFresh(sound, anew, lists, k);
  }

  // ---------------------------------------------------------------------
  // Accepting
  // ---------------------------------------------------------------------

  lemma ServiceLineExtends(command: Str, stem: Str, service: Str)
    requires stem <= service
    ensures ServiceLine(command, stem) <= ServiceLine(command, service)
  {
    assert service == stem + service[|stem|..];
    assert ServiceLine(command, service) == ServiceLine(command, stem) + service[|stem|..];
  }

  lemma AcceptingServiceExtends(buffer: Str, item: Completion, listed: ServiceSource, services: ServiceSource)
    requires IndexOf(buffer, BLANK, 0).Some? && item in ComputeCompletions(buffer, listed)
    ensures buffer <= AcceptCompletion(buffer, item, services).buffer
  {
    var at := IndexOf(buffer, BLANK, 0).value;
    ArgumentStage(buffer, listed);
    ServicesOffered(buffer[..at], buffer[at + 1..], listed, item);
    ServiceLineExtends(buffer[..at], buffer[at + 1..], item.value);
  }

  lemma AcceptingCommandExtends(buffer: Str, item: Completion, listed: ServiceSource, services: ServiceSource)
    requires IndexOf(buffer, BLANK, 0).None? && item in ComputeCompletions(buffer, listed)
    ensures buffer <= AcceptCompletion(buffer, item, services).buffer
  {
    IndexOfMeaning(buffer, BLANK, 0);
    CommandsOffered(buffer, listed, item);
  }

  /** Accepting a completion only extends the typed text, whatever the lists are by then. */
  lemma AcceptingExtends(s: EditorState, listed: ServiceSource, services: ServiceSource)
    requires Sound(s, listed) && Showing(s)
    ensures s.buffer <= AcceptHighlighted(s, services).buffer
  {
    var item := s.menu.items[s.menu.index];
    assert item in ComputeCompletions(s.buffer, listed);
    if IndexOf(s.buffer, BLANK, 0).None? {
      AcceptingCommandExtends(s.buffer, item, listed, services);
    } else {
      AcceptingServiceExtends(s.buffer, item, listed, services);
    }
  }

  /** Enter with the menu showing at the command stage. */
  predicate AtCommandStage(s: EditorState) { BLANK !in s.buffer }

  predicate IsEnter(key: KeyEvent) { key.sequence.Plain? && !key.ctrl && (key.name.Return? || key.name.Enter?) }

  /** Enter on a highlighted terminal command submits it, and the line parses to that command's own meaning. */
  lemma AcceptedCommandParses(s: EditorState, key: KeyEvent, listed: ServiceSource, services: ServiceSource) returns (i: nat)
    requires Sound(s, listed) && OnLine(s) && Showing(s) && IsEnter(key)
    requires AtCommandStage(s) && !s.menu.items[s.menu.index].expectsArg
    ensures i < |META_COMMANDS| && !META_COMMANDS[i].takesService && META_COMMANDS[i].name == s.menu.items[s.menu.index].value
    ensures ReduceKey(s, key, services).effect == Submit(META_COMMANDS[i].name)
    ensures |MEANINGS| == |META_COMMANDS| && ParseReplLine(META_COMMANDS[i].name) == MEANINGS[i]
  {
    var item := s.menu.items[s.menu.index];
    IndexOfMeaning(s.buffer, BLANK, 0);
    assert item in ComputeCompletions(s.buffer, listed);
    CommandsOffered(s.buffer, listed, item);
    i :| i < |META_COMMANDS| && META_COMMANDS[i] == MetaCommand(item.value, false);
    TableParses(i);
  }

  /** The line submits `command` with `service`, and parses to it exactly when the service is one plain word. */
  predicate SubmitsService(r: Reduced, command: Str, service: Str) {
    && TakesService(command)
    && r.effect == Submit(ServiceLine(command, service))
    && (ParseReplLine(ServiceLine(command, service)) == ServiceCommand(command, service) <==> service != [] && NoSpaces(service))
  }

  /** Enter with the menu showing at the argument stage submits the command with the highlighted service. */
  lemma EnterOnService(s: EditorState, key: KeyEvent, services: ServiceSource)
    requires s.cursor <= |s.buffer| && OnLine(s) && Showing(s) && IsEnter(key) && IndexOf(s.buffer, BLANK, 0).Some?
    ensures ReduceKey(s, key, services).effect
         == Submit(ServiceLine(s.buffer[..IndexOf(s.buffer, BLANK, 0).value], s.menu.items[s.menu.index].value))
  {
  }

  /** What is offered behind a command is one of its services, and parses with it exactly when it is one plain word. */
  lemma OfferedService(buffer: Str, at: nat, item: Completion, listed: ServiceSource)
    requires IndexOf(buffer, BLANK, 0) == Some(at) && item in ComputeCompletions(buffer, listed)
    ensures TakesService(buffer[..at]) && item.value in Candidates(buffer[..at], listed)
    ensures var line := ServiceLine(buffer[..at], item.value);
      ParseReplLine(line) == ServiceCommand(buffer[..at], item.value) <==> item.value != [] && NoSpaces(item.value)
  {
    ArgumentStage(buffer, listed);
    ServicesOffered(buffer[..at], buffer[at + 1..], listed, item);
    ServiceLineParsesIff(buffer[..at], item.value);
  }

  /**
   * Enter on a highlighted service submits the typed command with that service,
   * one of those the command offers, and the line parses to it exactly when the
   * service is one plain word.
   */
  lemma AcceptedServiceParsesIff(s: EditorState, key: KeyEvent, listed: ServiceSource, services: ServiceSource)
    returns (command: Str)
    requires Sound(s, listed) && OnLine(s) && Showing(s) && IsEnter(key) && !AtCommandStage(s)
    ensures command + [BLANK] <= s.buffer && s.menu.items[s.menu.index].value in Candidates(command, listed)
    ensures SubmitsService(ReduceKey(s, key, services), command, s.menu.items[s.menu.index].value)
  {
    IndexOfMeaning(s.buffer, BLANK, 0);
    var at := IndexOf(s.buffer, BLANK, 0).value;
    var item := s.menu.items[s.menu.index];
    command := s.buffer[..at];
    assert item in ComputeCompletions(s.buffer, listed);
    OfferedService(s.buffer, at, item, listed);
    EnterOnService(s, key, services);
    assert command + [BLANK] == s.buffer[..at + 1];
  }

  /**
   * Enter on a highlighted service-taking command stays to offer its services;
   * with none to offer it submits the bare command, which is a usage error.
   */
  lemma AcceptedServiceCommand(s: EditorState, key: KeyEvent, listed: ServiceSource, services: ServiceSource)
    requires Sound(s, listed) && OnLine(s) && Showing(s) && IsEnter(key)
    requires AtCommandStage(s) && s.menu.items[s.menu.index].expectsArg
    ensures var command, r := s.menu.items[s.menu.index].value, ReduceKey(s, key, services);
      && TakesService(command)
      && if Candidates(command, services) != [] then
           && r.effect == NoEffect && r.state.buffer == command + [BLANK] && r.state.menu.isOpen
           && Map((c: Completion) => c.value, r.state.menu.items) == Candidates(command, services)
         else r.effect == Submit(command + [BLANK]) && ParseReplLine(command + [BLANK]) == UsageError(command)
  {
    var item := s.menu.items[s.menu.index];
    IndexOfMeaning(s.buffer, BLANK, 0);
    assert item in ComputeCompletions(s.buffer, listed);
    CommandsOffered(s.buffer, listed, item);
    assert TakesService(item.value);
    ServicesAfterCommand(item.value, services);
    if Candidates(item.value, services) == [] {
      BareServiceCommand(item.value);
      assert ServiceLine(item.value, []) == item.value + [BLANK] by {
        JoinEmpty([BLANK]);
      }
    }
  }

  /** After a service-taking command and a space, all its services are offered. */
  lemma ServicesAfterCommand(command: Str, services: ServiceSource)
    requires TakesService(command)
    ensures var items := ComputeCompletions(command + [BLANK], services);
      && Map((c: Completion) => c.value, items) == Candidates(command, services)
      && (items != [] <==> Candidates(command, services) != [])
  {
    var input := command + [BLANK];
    CommandWords(command);
    assert forall i :: 0 <= i < |command| ==> input[i] == command[i] && !IsSpace(input[i]);
    FirstIndex(input, BLANK, 0, |command|);
    assert input[..|command|] == command && input[|command| + 1..] == [];
    var all := Candidates(command, services);
    FilterOfAll((s: Str) => [] <= s, all);
    MapBack((s: Str) => Completion(s, false), (c: Completion) => c.value, all);
  }

  // ---------------------------------------------------------------------
  // Pasting and submitting
  // ---------------------------------------------------------------------

  predicate BreakFree(s: Str) { forall i :: 0 <= i < |s| ==> s[i] != CR && s[i] != LF }

  lemma {:induction false} FlattenedIsBreakFree(s: Str)
    ensures BreakFree(FlattenBreaks(s))
    ensures BreakFree(s) ==> FlattenBreaks(s) == s
  {
    if s != [] {
      FlattenedIsBreakFree(s[1..]);
    }
  }

  predicate AllBreaks(s: Str) { forall i :: 0 <= i < |s| ==> s[i] == CR || s[i] == LF }

  /** Flattening puts one blank for each run of line breaks and keeps everything else. */
  lemma {:induction false} FlattenMeaning(front: Str, run: Str, back: Str)
    requires BreakFree(front) && run != [] && AllBreaks(run) && (back != [] ==> back[0] != 0x0D && back[0] != 0x0A)
    ensures FlattenBreaks(front + (run + back)) == front + ([0x20] + FlattenBreaks(back))
    decreases |front| + |run|
  {
    if front != [] {
      JoinRest(front, run + back);
      FlattenMeaning(front[1..], run, back);
      JoinAssoc([front[0]], front[1..], [0x20] + FlattenBreaks(back));
      assert [front[0]] + front[1..] == front;
    } else {
      JoinEmpty(run + back);
      JoinRest(run, back);
      if |run| > 1 {
        JoinEmpty(run[1..] + back);
        assert (run + back)[1] == run[1];
        FlattenMeaning([], run[1..], back);
      } else {
        JoinEmpty(back);
      }
      JoinEmpty([0x20] + FlattenBreaks(back));
    }
  }

  function Press(s: EditorState, key: KeyEvent, services: ServiceSource): EditorState
    requires s.cursor <= |s.buffer|
  {
    ReduceKey(s, key, services).state
  }

  function PressAll(s: EditorState, keys: seq<KeyEvent>, services: ServiceSource): EditorState
    requires s.cursor <= |s.buffer|
    decreases |keys|
  {
    if keys == [] then s else PressAll(Press(s, keys[0], services), keys[1..], services)
  }

  /** What the shell is told to do, key by key. */
  function EffectsOf(s: EditorState, keys: seq<KeyEvent>, services: ServiceSource): (r: seq<EditorEffect>)
    requires s.cursor <= |s.buffer|
    ensures |r| == |keys|
    decreases |keys|
  {
    if keys == [] then []
    else [ReduceKey(s, keys[0], services).effect] + EffectsOf(Press(s, keys[0], services), keys[1..], services)
  }

  /** The texts of the keys, their line breaks flattened, end to end. */
  function Pasted(keys: seq<KeyEvent>): Str {
    if keys == [] then [] else FlattenBreaks(keys[0].str) + Pasted(keys[1..])
  }

  /** No marker is among the keys: they all lie between two markers. */
  predicate AllPlain(keys: seq<KeyEvent>) { forall i :: 0 <= i < |keys| ==> keys[i].sequence.Plain? }

  /** Escape or Ctrl-C. */
  predicate BreaksOut(key: KeyEvent) { key.name.Escape? || (key.ctrl && key.name.LetterC?) }

  predicate NoneBreaksOut(keys: seq<KeyEvent>) { forall i :: 0 <= i < |keys| ==> !BreaksOut(keys[i]) }

  predicate InPaste(s: EditorState) { s.cursor <= |s.buffer| && s.selection.None? && s.pasting }

  lemma PasteKey(s: EditorState, key: KeyEvent, services: ServiceSource)
    requires InPaste(s) && key.sequence.Plain? && !BreaksOut(key)
    ensures ReduceKey(s, key, services).effect == NoEffect
    ensures var text, r := FlattenBreaks(key.str), Press(s, key, services);
      InPaste(r) && r.buffer == s.buffer[..s.cursor] + text + s.buffer[s.cursor..] && r.cursor == s.cursor + |text|
  {
    assert s.buffer[..s.cursor] + [] + s.buffer[s.cursor..] == s.buffer;
  }

  lemma InsertTwice(b: Str, at: nat, t: Str, u: Str)
    requires at <= |b|
    ensures var c := b[..at] + t + b[at..];
      c[..at + |t|] + u + c[at + |t|..] == b[..at] + (t + u) + b[at..]
  {
    var c := b[..at] + t + b[at..];
    assert c[..at + |t|] == b[..at] + t && c[at + |t|..] == b[at..];
  }

  lemma {:induction false} PastedIsBreakFree(keys: seq<KeyEvent>)
    ensures BreakFree(Pasted(keys))
  {
    if keys != [] {
      FlattenedIsBreakFree(keys[0].str);
      PastedIsBreakFree(keys[1..]);
    }
  }

  /**
   * With no chooser open, everything pasted is literal text as long as it holds
   * no Escape and no Ctrl-C: nothing is submitted, closed or interrupted, paste
   * mode stays on, and the flattened texts stand at the cursor.
   */
  lemma {:induction false} PasteIsLiteral(s: EditorState, keys: seq<KeyEvent>, services: ServiceSource)
    requires InPaste(s) && AllPlain(keys) && NoneBreaksOut(keys)
    ensures forall effect :: effect in EffectsOf(s, keys, services) ==> effect == NoEffect
    ensures var r := PressAll(s, keys, services);
      && InPaste(r) && BreakFree(Pasted(keys))
      && r.buffer == s.buffer[..s.cursor] + Pasted(keys) + s.buffer[s.cursor..] && r.cursor == s.cursor + |Pasted(keys)|
    decreases |keys|
  {
    PastedIsBreakFree(keys);
    if keys == [] {
      assert s.buffer[..s.cursor] + [] + s.buffer[s.cursor..] == s.buffer;
    } else {
      PasteKey(s, keys[0], services);
      PasteIsLiteral(Press(s, keys[0], services), keys[1..], services);
      InsertTwice(s.buffer, s.cursor, FlattenBreaks(keys[0].str), Pasted(keys[1..]));
    }
  }

  lemma {:induction false} PasteStaysOver(s: EditorState, keys: seq<KeyEvent>, services: ServiceSource)
    requires s.cursor <= |s.buffer| && !s.pasting && AllPlain(keys)
    ensures !PressAll(s, keys, services).pasting
    decreases |keys|
  {
    if keys != [] {
      PasteStaysOver(Press(s, keys[0], services), keys[1..], services);
    }
  }

  /** Paste mode outlasts the keys between its markers exactly when none is Escape or Ctrl-C. */
  lemma {:induction false} PasteLastsIff(s: EditorState, keys: seq<KeyEvent>, services: ServiceSource)
    requires InPaste(s) && AllPlain(keys)
    ensures PressAll(s, keys, services).pasting <==> NoneBreaksOut(keys)
    decreases |keys|
  {
    if keys != [] {
      var next := Press(s, keys[0], services);
      if BreaksOut(keys[0]) {
        PasteStaysOver(next, keys[1..], services);
      } else {
        PasteKey(s, keys[0], services);
        PasteLastsIff(next, keys[1..], services);
        assert forall i :: 0 < i < |keys| ==> keys[i] == keys[1..][i - 1];
      }
    }
  }

  /** So whatever is submitted inside a paste was let out by an earlier Escape or Ctrl-C. */
  lemma {:induction false} SubmitNeedsBreakOut(s: EditorState, keys: seq<KeyEvent>, services: ServiceSource, k: nat) returns (j: nat)
    requires InPaste(s) && AllPlain(keys) && k < |keys| && EffectsOf(s, keys, services)[k].Submit?
    ensures j < k && BreaksOut(keys[j])
    decreases |keys|
  {
    if BreaksOut(keys[0]) {
      return 0;
    }
    PasteKey(s, keys[0], services);
    j := SubmitNeedsBreakOut(Press(s, keys[0], services), keys[1..], services, k - 1);
    j := j + 1;
  }

  /** And then it is: after an Escape inside the markers the next line break acts as Enter on the text so far. */
  lemma EscapeLetsPasteSubmit(s: EditorState, services: ServiceSource)
    requires InPaste(s)
    ensures EffectsOf(s, [Named(Escape), Named(Return)], services)[1] == ReduceEnter(s.(pasting := false), services).effect
    ensures !Showing(s) ==> EffectsOf(s, [Named(Escape), Named(Return)], services)[1] == Submit(s.buffer)
  {
    var keys := [Named(Escape), Named(Return)];
    assert keys[1..] == [Named(Return)];
  }

  /** From a blank prompt: a paste of an Escape and a line break submits. */
  lemma PasteCanSubmit(services: ServiceSource)
    ensures EffectsOf(EMPTY_STATE, [PASTE_OPENS, Named(Escape), Named(Return)], services)[2] == Submit([])
  {
    var keys := [PASTE_OPENS, Named(Escape), Named(Return)];
    assert keys[1..] == [Named(Escape), Named(Return)];
    EscapeLetsPasteSubmit(EMPTY_STATE.(pasting := true), services);
  }

  /** With a chooser open a pasted line break confirms the highlighted choice. */
  lemma PasteConfirmsChoice(s: EditorState, listed: ServiceSource, services: ServiceSource)
    requires Sound(s, listed) && s.selection.Some? && s.selection.value.choices != []
    ensures EffectsOf(s, [PASTE_OPENS, Named(Return)], services)[1] == Submit(s.selection.value.choices[s.selection.value.index])
  {
    var keys := [PASTE_OPENS, Named(Return)];
    assert keys[1..] == [Named(Return)];
  }

  /** The marker that opens a bracketed paste. */
  const PASTE_OPENS := KeyEvent(OtherName, false, PasteStart, [])

  /** Only Enter submits, and a submitted line leaves a blank editor. */
  lemma OnlyEnterSubmits(s: EditorState, key: KeyEvent, services: ServiceSource)
    requires Sound(s, services) && ReduceKey(s, key, services).effect.Submit?
    ensures (key.name.Return? || key.name.Enter?) && key.sequence.Plain?
    ensures s.selection.Some? || (!s.pasting && !key.ctrl)
    ensures ReduceKey(s, key, services).state == EMPTY_STATE
  {
  }

  // ---------------------------------------------------------------------
  // What keys undo
  // ---------------------------------------------------------------------

  /** A key that types one unit. */
  function Typing(u: Unit): KeyEvent { KeyEvent(OtherName, false, Plain, [u]) }

  function Named(name: KeyName): KeyEvent { KeyEvent(name, false, Plain, []) }

  predicate Printing(u: Unit) { u >= 0x20 && u != 0x7F }

  lemma CutAround(b: Str, c: nat, u: Unit)
    requires c <= |b|
    ensures var typed := b[..c] + [u] + b[c..];
      typed[..c] + [] + typed[c + 1..] == b && |typed| == |b| + 1
  {
    var typed := b[..c] + [u] + b[c..];
    assert typed[..c] == b[..c] && typed[c + 1..] == b[c..];
  }

  lemma PressTyping(s: EditorState, u: Unit, services: ServiceSource)
    requires s.cursor <= |s.buffer| && OnLine(s) && Printing(u)
    ensures Press(s, Typing(u), services) == Edited(s, s.cursor, s.cursor, [u], services)
  {
  }

  lemma PressLeft(s: EditorState, services: ServiceSource)
    requires 0 < s.cursor <= |s.buffer| && OnLine(s)
    ensures Press(s, Named(Left), services) == s.(cursor := s.cursor - 1)
  {
  }

  lemma PressDelete(s: EditorState, services: ServiceSource)
    requires s.cursor < |s.buffer| && OnLine(s)
    ensures Press(s, Named(Delete), services) == Edited(s, s.cursor, s.cursor + 1, [], services)
  {
  }

  lemma PressBackspace(s: EditorState, services: ServiceSource)
    requires 0 < s.cursor <= |s.buffer| && OnLine(s)
    ensures Press(s, Named(Backspace), services) == Edited(s, s.cursor - 1, s.cursor, [], services)
  {
  }

  /** Taking away what was just put in leaves the menu computed for the old text. */
  lemma EditedBack(s: EditorState, u: Unit, services: ServiceSource)
    requires s.cursor <= |s.buffer|
    ensures var typed := Edited(s, s.cursor, s.cursor, [u], services);
      && |typed.buffer| == |s.buffer| + 1
      && Edited(typed, s.cursor, s.cursor + 1, [], services) == s.(menu := RefreshMenu(s.menu, s.buffer, services))
  {
    CutAround(s.buffer, s.cursor, u);
  }

  /** Typing puts the unit at the cursor, and Backspace takes it away again. */
  lemma BackspaceUndoesTyping(s: EditorState, u: Unit, services: ServiceSource)
    requires Sound(s, services) && OnLine(s) && Printing(u)
    ensures var typed := Press(s, Typing(u), services);
      && typed.buffer == s.buffer[..s.cursor] + [u] + s.buffer[s.cursor..] && typed.cursor == s.cursor + 1
      && Press(typed, Named(Backspace), services) == s.(menu := RefreshMenu(s.menu, s.buffer, services))
  {
    PressTyping(s, u, services);
    PressBackspace(Edited(s, s.cursor, s.cursor, [u], services), services);
    EditedBack(s, u, services);
  }

  /** Left, then Delete, takes away the unit just typed. */
  lemma LeftDeleteUndoesTyping(s: EditorState, u: Unit, services: ServiceSource)
    requires Sound(s, services) && OnLine(s) && Printing(u)
    ensures var left := Press(Press(s, Typing(u), services), Named(Left), services);
      left.cursor == s.cursor && Press(left, Named(Delete), services) == s.(menu := RefreshMenu(s.menu, s.buffer, services))
  {
    var typed := Edited(s, s.cursor, s.cursor, [u], services);
    PressTyping(s, u, services);
    EditedBack(s, u, services);
    PressLeft(typed, services);
    PressDelete(typed.(cursor := s.cursor), services);
  }

  /** After Home typing goes in front of the line, after End behind it. */
  lemma HomeAndEnd(s: EditorState, u: Unit, services: ServiceSource)
    requires Sound(s, services) && OnLine(s) && Printing(u)
    ensures Press(Press(s, Named(Home), services), Typing(u), services).buffer == [u] + s.buffer
    ensures Press(Press(s, Named(End), services), Typing(u), services).buffer == s.buffer + [u]
  {
    assert s.buffer[..0] + [u] + s.buffer[0..] == [u] + s.buffer;
    assert s.buffer[..|s.buffer|] + [u] + s.buffer[|s.buffer|..] == s.buffer + [u];
  }

  /** With nothing to accept, Right undoes Left. */
  lemma RightUndoesLeft(s: EditorState, services: ServiceSource)
    requires Sound(s, services) && OnLine(s) && !Showing(s) && s.cursor > 0
    ensures Press(s, Named(Left), services).cursor == s.cursor - 1
    ensures Press(Press(s, Named(Left), services), Named(Right), services) == s
  {
  }

  /** A chooser: Enter submits the highlighted choice, a digit in range highlights its choice, and Up undoes Down. */
  lemma ChooserMeaning(s: EditorState, d: nat, services: ServiceSource)
    requires Sound(s, services) && s.selection.Some? && s.selection.value.choices != [] && 1 <= d <= 9
    ensures var sel := s.selection.value;
      && ReduceKey(s, Named(Return), services) == Reduced(EMPTY_STATE, Submit(sel.choices[sel.index]))
      && Press(s, Typing(0x30 + d), services) == (if d <= |sel.choices| then s.(selection := Some(sel.(index := d - 1))) else s)
      && Press(Press(s, Named(Down), services), Named(Up), services) == s
      && Press(s, Named(Down), services).selection.value.index == (if sel.index + 1 == |sel.choices| then 0 else sel.index + 1)
  {
    var n, i := |s.selection.value.choices|, s.selection.value.index;
    if i + 1 == n {
      ModOnce(i + 1, n);
      ModNegative(-1, n);
    } else {
      SmallMod(i + 1, n);
      SmallMod(i, n);
    }
  }

  function Chord(name: KeyName): KeyEvent { KeyEvent(name, true, Plain, []) }

  /**
   * The control chords. On the line Ctrl-C interrupts, Ctrl-D closes an empty
   * line and does nothing to another, Ctrl-A and Ctrl-E go to its ends.
   */
  lemma ControlChords(s: EditorState, services: ServiceSource)
    requires s.cursor <= |s.buffer| && OnLine(s)
    ensures ReduceKey(s, Chord(LetterC), services) == Reduced(s, Sigint)
    ensures ReduceKey(s, Chord(LetterD), services) == Reduced(s, if s.buffer == [] then Close else NoEffect)
    ensures ReduceKey(s, Chord(LetterA), services) == Reduced(s.(cursor := 0), NoEffect)
    ensures ReduceKey(s, Chord(LetterE), services) == Reduced(s.(cursor := |s.buffer|), NoEffect)
  {
  }

  /** In a chooser Ctrl-C interrupts, Ctrl-D closes, and nothing can be typed. */
  lemma ChooserChords(s: EditorState, u: Unit, services: ServiceSource)
    requires s.cursor <= |s.buffer| && s.selection.Some? && !(0x31 <= u <= 0x39)
    ensures ReduceKey(s, Chord(LetterC), services) == Reduced(s, Sigint)
    ensures ReduceKey(s, Chord(LetterD), services) == Reduced(s, Close)
    ensures ReduceKey(s, Typing(u), services) == Reduced(s, NoEffect)
    ensures ReduceKey(s, Named(Escape), services) == Reduced(s, NoEffect)
    ensures s.selection.value.choices == [] ==> ReduceKey(s, Named(Return), services) == Reduced(EMPTY_STATE, Submit([]))
  {
  }

  /** The two ways out of a paste: Escape, quietly, and Ctrl-C, which interrupts. */
  lemma PasteWaysOut(s: EditorState, services: ServiceSource)
    requires InPaste(s)
    ensures ReduceKey(s, Named(Escape), services) == Reduced(s.(pasting := false), NoEffect)
    ensures ReduceKey(s, Chord(LetterC), services) == Reduced(s.(pasting := false), Sigint)
  {
  }

  /**
   * With the menu showing, Tab and Right take the highlighted item and stay,
   * and Escape closes the menu; with none, Tab asks for the completions of the
   * buffer, and Enter submits it.
   */
  lemma MenuKeys(s: EditorState, services: ServiceSource)
    requires s.cursor <= |s.buffer| && OnLine(s)
    ensures Press(s, Named(Escape), services) == s.(menu := s.menu.(isOpen := false))
    ensures Showing(s) ==>
      && Press(s, Named(Tab), services) == Press(s, Named(Right), services)
      && Press(s, Named(Tab), services).buffer == AcceptHighlighted(s, services).buffer
      && Press(s, Named(Tab), services).cursor == |AcceptHighlighted(s, services).buffer|
      && ReduceKey(s, Named(Tab), services).effect == NoEffect
    ensures !Showing(s) ==>
      && Press(s, Named(Tab), services).menu.items == ComputeCompletions(s.buffer, services)
      && (Press(s, Named(Tab), services).menu.isOpen <==> ComputeCompletions(s.buffer, services) != [])
      && ReduceKey(s, Named(Return), services) == Reduced(EMPTY_STATE, Submit(s.buffer))
  {
  }

  /** Up and Down move the highlight of an open menu, in a ring; Left and Right move the cursor of a line without one. */
  lemma ArrowKeys(s: EditorState, services: ServiceSource)
    requires s.cursor <= |s.buffer| && OnLine(s)
    ensures Showing(s) ==>
      && Press(s, Named(Up), services) == s.(menu := s.menu.(index := if s.menu.index == 0 then |s.menu.items| - 1 else s.menu.index - 1))
      && Press(s, Named(Down), services) == s.(menu := s.menu.(index := if s.menu.index + 1 == |s.menu.items| then 0 else s.menu.index + 1))
    ensures s.cursor > 0 ==> Press(s, Named(Left), services) == s.(cursor := s.cursor - 1)
    ensures !Showing(s) && s.cursor < |s.buffer| ==> Press(s, Named(Right), services) == s.(cursor := s.cursor + 1)
    ensures s.cursor == 0 ==> Press(s, Named(Left), services) == s
  {
    if Showing(s) {
      MenuSteps(s.menu);
    }
  }

  /** A control unit is not typed, and neither is a key without text. */
  lemma ControlTextIsIgnored(s: EditorState, u: Unit, services: ServiceSource)
    requires s.cursor <= |s.buffer| && OnLine(s)
    ensures u < 0x20 || u == 0x7F ==> ReduceKey(s, Typing(u), services) == Reduced(s, NoEffect)
    ensures ReduceKey(s, Named(OtherName), services) == Reduced(s, NoEffect)
  {
  }

  /** A chooser opens on the default choice, the nearest in range, over a blank line; in it Tab is Down. */
  lemma ChooserOpens(s: EditorState, choices: seq<Str>, at: int, services: ServiceSource)
    requires s.cursor <= |s.buffer|
    ensures var r := Step(s, BeginSelection(choices, at), services);
      && r.selection.Some? && r.selection.value.choices == choices && r.buffer == [] && !r.pasting && !r.menu.isOpen
      && r.selection.value.index ==
         (if choices == [] || at < 0 then 0 else if at < |choices| then at else |choices| - 1)
      && Press(r, Named(Tab), services) == Press(r, Named(Down), services)
  {
  }
}
