/** Line editing as states and steps: one keyboard buffer, saved and restored as the user switches terminals. */
module LineEdit {
  import opened Bytes

  const TAB_LENGTH := 4

  /** A line in a buffer: its characters, then NULs. */
  function Padded(s: seq<char>): (r: seq<char>)
    ensures |s| <= BUFSIZE ==> |r| == BUFSIZE && r[..|s|] == s
    ensures forall k :: |s| <= k < |r| ==> r[k] == NUL
  {
    s + seq(if |s| <= BUFSIZE then BUFSIZE - |s| else 0, _ => NUL)
  }

  /**
   * Terminals are numbered from 0. `buf` and `idx` are the line being typed on the visible terminal,
   * `saved` and `savedIdx` those put by; `termBuf` is the line last entered there, `savedTerm` those put by;
   * `previous` and `chosen` are `recentTermChoice`.
   */
  datatype Keyboard = Keyboard(
    buf: seq<char>, idx: nat, saved: seq<seq<char>>, savedIdx: seq<nat>,
    termBuf: seq<char>, savedTerm: seq<seq<char>>,
    visible: nat, previous: nat, chosen: nat, alt: bool,
    entered: seq<bool>)

  /**
   * The keys; a program on terminal `scheduled` halting, `base` if it is that terminal's first shell; and a read
   * on terminal `scheduled` getting its line.
   */
  datatype Event =
    | Char(c: char)
    | Space
    | Tab
    | Backspace
    | Enter
    | Alt(down: bool)
    | FKey(terminal: nat)
    | Halt(scheduled: nat, base: bool)
    | Read(scheduled: nat)

  ghost predicate Sized(k: Keyboard) {
    && 0 < |k.saved| == |k.savedIdx| == |k.savedTerm| == |k.entered|
    && |k.buf| == |k.termBuf| == BUFSIZE
    && (forall t :: 0 <= t < |k.saved| ==> |k.saved[t]| == |k.savedTerm[t]| == BUFSIZE && k.savedIdx[t] < BUFSIZE)
    && k.idx < BUFSIZE && k.visible < |k.saved| && k.previous < |k.saved| && k.chosen < |k.saved|
  }

  /**
   * Keys the code has room for: Space while there is room, Enter while there is room for the newline
   * `buffer_clear` stores after it. The newline key is Enter and reaches no other branch.
   */
  ghost predicate Allowed(k: Keyboard, e: Event) {
    && (e.Char? ==> e.c != NEWLINE)
    && (e.Space? ==> k.idx < BUFSIZE - 1)
    && (e.Enter? ==> k.idx <= BUFSIZE - 2)
    && (e.FKey? ==> e.terminal < |k.saved|)
    && (e.Halt? || e.Read? ==> e.scheduled < |k.saved|)
    && (e.Read? ==> e.scheduled < |k.entered| && k.entered[e.scheduled])
  }

  /** The last F-key chose the terminal that is visible. An F-key pressed without Alt breaks this. */
  ghost predicate InStep(k: Keyboard, e: Event) {
    k.chosen == k.visible && (e.FKey? ==> k.alt)
  }

  // ---------------------------------------------------------------- the steps

  function Append(k: Keyboard, c: char): Keyboard
    requires Sized(k) && k.idx < BUFSIZE
  {
    k.(buf := k.buf[k.idx := c], idx := k.idx + 1)
  }

  function AppendSpaces(k: Keyboard, n: nat): (r: Keyboard)
    requires Sized(k)
    ensures Sized(r) && |r.saved| == |k.saved|
    decreases n
  {
    if n == 0 || k.idx >= BUFSIZE - 1 then k else AppendSpaces(Append(k, SPACE), n - 1)
  }

  /** Hand the line to the reader and start afresh. */
  function EnterLine(k: Keyboard): (r: Keyboard)
    requires Sized(k) && k.idx <= BUFSIZE - 2
    ensures Sized(r) && |r.saved| == |k.saved|
  {
    k.(termBuf := k.buf[k.idx := NEWLINE], entered := k.entered[k.visible := true],
       buf := Padded([]), idx := 0, saved := k.saved[k.chosen := Padded([])])
  }

  /** Put the visible terminal's buffers by and bring the chosen terminal's back. */
  function Switch(k: Keyboard, t: nat): (r: Keyboard)
    requires Sized(k) && t < |k.saved|
    ensures Sized(r) && |r.saved| == |k.saved|
  {
    var p := k.chosen;
    var saved, term, index := k.saved[p := k.buf], k.savedTerm[p := k.termBuf], k.savedIdx[p := k.idx];
    k.(saved := saved, buf := saved[t], savedTerm := term, termBuf := term[t], savedIdx := index, idx := index[t],
       previous := p, chosen := t, visible := t)
  }

  function Step(k: Keyboard, e: Event): (r: Keyboard)
    requires Sized(k) && Allowed(k, e)
    ensures Sized(r) && |r.saved| == |k.saved|
  {
    match e
    case Char(c) => if k.idx >= BUFSIZE - 1 then k else Append(k, c)
    case Space => Append(k, SPACE)
    case Tab => AppendSpaces(k, TAB_LENGTH)
    case Backspace => if k.idx > 0 then k.(idx := k.idx - 1, buf := k.buf[k.idx - 1 := NUL]) else k
    case Enter => EnterLine(k)
    case Alt(down) => k.(alt := down)
    case FKey(t) => if k.alt then Switch(k, t) else k.(previous := k.chosen, chosen := t)
    case Halt(t, base) =>
      k.(entered := k.entered[t := false], termBuf := if base then k.termBuf else Padded([]))
    case Read(t) => k.(entered := k.entered[t := false])
  }

  // ---------------------------------------------------------------- what each terminal holds

  function BufferOf(k: Keyboard, t: nat): seq<char>
    requires Sized(k) && t < |k.saved|
  {
    if t == k.visible then k.buf else k.saved[t]
  }

  function IndexOf(k: Keyboard, t: nat): nat
    requires Sized(k) && t < |k.saved|
  {
    if t == k.visible then k.idx else k.savedIdx[t]
  }

  function EnteredOf(k: Keyboard, t: nat): seq<char>
    requires Sized(k) && t < |k.saved|
  {
    if t == k.visible then k.termBuf else k.savedTerm[t]
  }

  function LineOf(k: Keyboard, t: nat): seq<char>
    requires Sized(k) && t < |k.saved|
  {
    BufferOf(k, t)[..IndexOf(k, t)]
  }

  /** Every cell at or past the index is NUL, on every terminal. */
  ghost predicate Clean(k: Keyboard)
    requires Sized(k)
  {
    forall t :: 0 <= t < |k.saved| ==> Blank(BufferOf(k, t), IndexOf(k, t))
  }

  ghost predicate Blank(buf: seq<char>, from: nat) {
    forall i :: from <= i < |buf| ==> buf[i] == NUL
  }

  /** What a key does to the line of the terminal it is typed on. */
  function Edit(line: seq<char>, e: Event): seq<char> {
    match e
    case Char(c) => if |line| >= BUFSIZE - 1 then line else line + [c]
    case Space => line + [SPACE]
    case Tab => line + seq(if |line| < BUFSIZE - 1 then Min(TAB_LENGTH, BUFSIZE - 1 - |line|) else 0, _ => SPACE)
    case Backspace => if line == [] then line else line[..|line| - 1]
    case Enter => []
    case _ => line
  }

  lemma AppendLine(k: Keyboard, c: char)
    requires Sized(k) && Clean(k) && k.idx < BUFSIZE - 1
    ensures Sized(Append(k, c)) && Clean(Append(k, c))
    ensures LineOf(Append(k, c), k.visible) == LineOf(k, k.visible) + [c]
    ensures forall t :: 0 <= t < |k.saved| && t != k.visible ==>
              LineOf(Append(k, c), t) == LineOf(k, t) && BufferOf(Append(k, c), t) == BufferOf(k, t)
  {
    assert Blank(BufferOf(k, k.visible), k.idx);
    assert forall t :: 0 <= t < |k.saved| && t != k.visible ==> BufferOf(Append(k, c), t) == BufferOf(k, t);
  }

  lemma {:induction false} SpacesLine(k: Keyboard, n: nat)
    requires Sized(k) && Clean(k)
    ensures var r := AppendSpaces(k, n);
            && Clean(r) && r == k.(buf := r.buf, idx := r.idx)
            && r.idx == k.idx + Min(n, BUFSIZE - 1 - k.idx)
            && r.buf[..r.idx] == k.buf[..k.idx] + seq(Min(n, BUFSIZE - 1 - k.idx), _ => SPACE)
    decreases n
  {
    if n > 0 && k.idx < BUFSIZE - 1 {
      AppendLine(k, SPACE);
      SpacesLine(Append(k, SPACE), n - 1);
      var m := Min(n, BUFSIZE - 1 - k.idx) as nat;
      assert seq(m, _ => SPACE) == [SPACE] + seq(m - 1, _ => SPACE);
    }
  }

  lemma OthersUntouched(k: Keyboard, e: Event)
    requires Sized(k) && Allowed(k, e) && InStep(k, e) && !e.Tab? && !e.FKey?
    ensures forall u :: 0 <= u < |k.saved| && u != k.visible ==>
              BufferOf(Step(k, e), u) == BufferOf(k, u) && IndexOf(Step(k, e), u) == IndexOf(k, u)
  {
  }

  /** A key edits the visible terminal's line and no other; a switch edits none; no stale byte is left behind a line. */
  lemma StepEdits(k: Keyboard, e: Event, t: nat)
    requires Sized(k) && Clean(k) && Allowed(k, e) && InStep(k, e) && t < |k.saved|
    ensures Clean(Step(k, e))
    ensures LineOf(Step(k, e), t) == if t == k.visible then Edit(LineOf(k, t), e) else LineOf(k, t)
  {
    match e
    case Char(c) => if k.idx < BUFSIZE - 1 { AppendLine(k, c); }
    case Space => AppendLine(k, SPACE);
    case Tab => SpacesLine(k, TAB_LENGTH);
    case FKey(u) =>
      SwitchKeepsLines(k, u);
      assert Keeps(k, Switch(k, u), t);
    case _ =>
      assert Blank(BufferOf(k, k.visible), k.idx);
      OthersUntouched(k, e);
  }

  /** What a terminal would lose in a switch: its buffer, its index and the line it last entered. */
  ghost predicate Keeps(k: Keyboard, r: Keyboard, t: nat)
    requires Sized(k) && Sized(r) && |r.saved| == |k.saved| && t < |k.saved|
  {
    BufferOf(r, t) == BufferOf(k, t) && IndexOf(r, t) == IndexOf(k, t) && EnteredOf(r, t) == EnteredOf(k, t)
  }

  lemma SwitchKeepsLines(k: Keyboard, u: nat)
    requires Sized(k) && u < |k.saved| && k.chosen == k.visible
    ensures forall t :: 0 <= t < |k.saved| ==> Keeps(k, Switch(k, u), t)
    ensures Clean(k) ==> Clean(Switch(k, u))
  {
    var r := Switch(k, u);
    assert forall t :: 0 <= t < |k.saved| ==> BufferOf(r, t) == BufferOf(k, t) && IndexOf(r, t) == IndexOf(k, t);
  }

  /**
   * A switch puts the visible buffers by under the terminal last chosen. It keeps every terminal's line exactly
   * when that is the visible one, or when both are already put by with the very same contents.
   */
  lemma SwitchKeepsIff(k: Keyboard, u: nat)
    requires Sized(k) && u < |k.saved|
    ensures (forall t :: 0 <= t < |k.saved| ==> Keeps(k, Switch(k, u), t)) <==>
              (k.chosen == k.visible || (PutBy(k, k.visible) && PutBy(k, k.chosen)))
  {
    var r := Switch(k, u);
    if k.chosen != k.visible {
      assert Keeps(k, r, k.visible) <==> PutBy(k, k.visible);
      assert Keeps(k, r, k.chosen) <==> PutBy(k, k.chosen);
      assert forall t :: 0 <= t < |k.saved| && t != k.visible && t != k.chosen ==> Keeps(k, r, t);
    }
  }

  ghost predicate PutBy(k: Keyboard, t: nat)
    requires Sized(k) && t < |k.saved|
  {
    k.saved[t] == k.buf && k.savedIdx[t] == k.idx && k.savedTerm[t] == k.termBuf
  }

  /** Enter clears the save area of the terminal last chosen: no other line is lost exactly when that one's is not. */
  lemma EnterKeepsOthersIff(k: Keyboard)
    requires Sized(k) && Allowed(k, Enter)
    ensures (forall t :: 0 <= t < |k.saved| && t != k.visible ==>
               BufferOf(Step(k, Enter), t) == BufferOf(k, t) && IndexOf(Step(k, Enter), t) == IndexOf(k, t))
       <==> k.chosen == k.visible || k.saved[k.chosen] == Padded([])
  {
    if k.chosen != k.visible {
      assert BufferOf(Step(k, Enter), k.chosen) == Padded([]) && BufferOf(k, k.chosen) == k.saved[k.chosen];
    }
  }

  /** The keyboard when the first terminal starts. */
  function Fresh(n: nat): (k: Keyboard)
    requires n > 0
    ensures Sized(k) && Clean(k)
  {
    Keyboard(Padded([]), 0, seq(n, _ => Padded([])), seq(n, _ => 0), Padded([]), seq(n, _ => Padded([])),
             0, 0, 0, false, seq(n, _ => false))
  }

  /** One character typed, F2 without Alt, then Alt and F3: the first terminal's line is now the second's. */
  lemma FKeyWithoutAltMovesLine()
    ensures var k := Step(Step(Step(Step(Fresh(3), Char('a')), FKey(1)), Alt(true)), FKey(2));
            LineOf(k, 0) == [] && LineOf(k, 1) == ['a']
  {
  }

  /** A character typed on the second terminal, back to the first, F2 without Alt, Enter: the character is a NUL now. */
  lemma EnterAfterPlainFKeyErases()
    ensures var k := Step(Step(Step(Step(Fresh(3), Alt(true)), FKey(1)), Char('a')), FKey(0));
            && LineOf(k, 1) == ['a']
            && LineOf(Step(Step(Step(k, Alt(false)), FKey(1)), Enter), 1) == [NUL]
  {
  }

  // ---------------------------------------------------------------- whole runs

  /** Every key of the run is one the code has room for, and no F-key is pressed without Alt. */
  ghost predicate RunAllowed(k: Keyboard, es: seq<Event>)
    requires Sized(k)
    decreases |es|
  {
    es == [] || (Allowed(k, es[0]) && InStep(k, es[0]) && RunAllowed(Step(k, es[0]), es[1..]))
  }

  ghost function Run(k: Keyboard, es: seq<Event>): (r: Keyboard)
    requires Sized(k) && RunAllowed(k, es)
    ensures Sized(r) && |r.saved| == |k.saved|
    decreases |es|
  {
    if es == [] then k else Run(Step(k, es[0]), es[1..])
  }

  /** The keys typed while terminal `t` is visible, given the terminal visible first. */
  function KeysFor(es: seq<Event>, visible: nat, t: nat): seq<Event> {
    if es == [] then []
    else
      (if visible == t then [es[0]] else []) + KeysFor(es[1..], if es[0].FKey? then es[0].terminal else visible, t)
  }

  lemma FirstEdit(line: seq<char>, e: Event, keys: seq<Event>)
    ensures EditAll(line, [e] + keys) == EditAll(Edit(line, e), keys)
  {
    assert ([e] + keys)[1..] == keys;
  }

  function EditAll(line: seq<char>, keys: seq<Event>): seq<char>
    decreases |keys|
  {
    if keys == [] then line else EditAll(Edit(line, keys[0]), keys[1..])
  }

  /** Each terminal's line is what its own keys make of it, whatever is typed on the others. */
  lemma {:induction false} LineIsFold(k: Keyboard, es: seq<Event>, t: nat)
    requires Sized(k) && Clean(k) && RunAllowed(k, es) && t < |k.saved|
    ensures Clean(Run(k, es))
    ensures LineOf(Run(k, es), t) == EditAll(LineOf(k, t), KeysFor(es, k.visible, t))
    decreases |es|
  {
    if es != [] {
      StepEdits(k, es[0], t);
      StepVisible(k, es[0]);
      hide Step, LineOf, Edit, Clean, InStep, Allowed;
      LineIsFold(Step(k, es[0]), es[1..], t);
      FirstKey(es, k.visible, t);
      FirstEdit(LineOf(k, t), es[0], KeysFor(es[1..], Step(k, es[0]).visible, t));
    }
  }

  lemma StepVisible(k: Keyboard, e: Event)
    requires Sized(k) && Allowed(k, e) && InStep(k, e)
    ensures Step(k, e).visible == if e.FKey? then e.terminal else k.visible
  {
    TabFrame(k, TAB_LENGTH);
  }

  lemma FirstKey(es: seq<Event>, visible: nat, t: nat)
    requires es != []
    ensures var rest := KeysFor(es[1..], if es[0].FKey? then es[0].terminal else visible, t);
            KeysFor(es, visible, t) == if visible == t then [es[0]] + rest else rest
  {
  }

  /** The keys after the last Enter; all of them if there is none. */
  function SinceEnter(keys: seq<Event>): seq<Event> {
    if Enter !in keys then keys else SinceEnter(keys[1..])
  }

  /** Only the keys since a terminal's last Enter matter to its line. */
  lemma {:induction false} OnlySinceEnter(line: seq<char>, keys: seq<Event>)
    requires Enter in keys
    ensures EditAll(line, keys) == EditAll([], SinceEnter(keys))
    decreases |keys|
  {
    if Enter in keys[1..] {
      OnlySinceEnter(Edit(line, keys[0]), keys[1..]);
    } else {
      assert keys[0] == Enter && SinceEnter(keys) == SinceEnter(keys[1..]) == keys[1..];
    }
  }

  /** Plain typing makes the text typed, as far as it fits. */
  lemma {:induction false} TypingIsTheText(line: seq<char>, keys: seq<Event>)
    requires |line| + |keys| <= 127 && forall i :: 0 <= i < |keys| ==> keys[i].Char?
    ensures EditAll(line, keys) == line + seq(|keys|, i requires 0 <= i < |keys| => keys[i].c)
    decreases |keys|
  {
    if keys != [] {
      TypingIsTheText(Edit(line, keys[0]), keys[1..]);
    }
  }

  /** Backspace undoes a character; the 128th is dropped; Space is a space, and Tab up to four, as room allows. */
  lemma KeyLaws(line: seq<char>, c: char)
    requires |line| <= 127
    ensures |line| < 127 ==> EditAll(line, [Char(c), Backspace]) == line
    ensures |line| == 127 ==> Edit(line, Char(c)) == line && Edit(line, Tab) == line
    ensures |line| < 127 ==> Edit(line, Space) == Edit(line, Char(' '))
    ensures |line| <= 123 ==> Edit(line, Tab) == line + [' ', ' ', ' ', ' ']
    ensures 123 <= |line| < 127 ==> |Edit(line, Tab)| == 127 && Edit(line, Tab)[..|line|] == line
    ensures Edit([], Backspace) == [] && Edit(line, Enter) == []
  {
    assert [Char(c), Backspace][1..] == [Backspace] && [Backspace][1..] == [];
    assert |line| < 127 ==> (line + [c])[..|line|] == line;
  }

  /** An F-key always records the choice, and changes the terminal on screen only under Alt. */
  lemma FKeyChooses(k: Keyboard, t: nat)
    requires Sized(k) && Allowed(k, FKey(t))
    ensures var r := Step(k, FKey(t));
            && r.chosen == t && r.previous == k.chosen && r.visible == (if k.alt then t else k.visible)
            && r.alt == k.alt && r.entered == k.entered
  {
  }

  // ---------------------------------------------------------------- the flags

  /** A flag is up after an event if Enter was pressed there, or it was up and no read or halt there took it. */
  lemma StepFlags(k: Keyboard, e: Event, t: nat)
    requires Sized(k) && Allowed(k, e) && t < |k.saved|
    ensures Step(k, e).entered[t] <==>
              (e == Enter && t == k.visible) || (k.entered[t] && e != Read(t) && !(e.Halt? && e.scheduled == t))
  {
    if e.Tab? {
      TabFrame(k, TAB_LENGTH);
    }
  }

  /** The same over a run, followed without the buffers. */
  function FlagAfter(up: bool, es: seq<Event>, visible: nat, t: nat): bool
    decreases |es|
  {
    if es == [] then up
    else
      var e := es[0];
      FlagAfter((e == Enter && t == visible) || (up && e != Read(t) && !(e.Halt? && e.scheduled == t)),
                es[1..], if e.FKey? then e.terminal else visible, t)
  }

  lemma {:induction false} FlagIsFold(k: Keyboard, es: seq<Event>, t: nat)
    requires Sized(k) && RunAllowed(k, es) && t < |k.saved|
    ensures Run(k, es).entered[t] == FlagAfter(k.entered[t], es, k.visible, t)
    decreases |es|
  {
    if es != [] {
      StepFlags(k, es[0], t);
      StepVisible(k, es[0]);
      hide Step, Allowed, InStep;
      FlagIsFold(Step(k, es[0]), es[1..], t);
    }
  }

  // ---------------------------------------------------------------- the line handed over

  /** How many bytes `terminal_read` reports for a request of `n`: up to and including the newline. */
  function ReportedBytes(buf: seq<char>, n: nat): nat {
    if buf == [] then 0 else if buf[0] == NEWLINE || n == 0 then 1 else 1 + ReportedBytes(buf[1..], n - 1)
  }

  lemma {:induction false} ReportedLine(line: seq<char>, rest: seq<char>, n: nat)
    requires NEWLINE !in line
    ensures ReportedBytes(line + [NEWLINE] + rest, n) == Min(|line| + 1, n + 1)
  {
    var buf := line + [NEWLINE] + rest;
    if line != [] && n > 0 {
      assert line[0] in line;
      assert buf[1..] == line[1..] + [NEWLINE] + rest;
      ReportedLine(line[1..], rest, n - 1);
    } else if line != [] {
      assert line[0] in line;
    }
  }

  /** The line entered on a terminal waits there, with its flag up. */
  ghost predicate Waits(k: Keyboard, t: nat, line: seq<char>)
    requires Sized(k) && t < |k.saved|
  {
    k.entered[t] && EnteredOf(k, t) == line
  }

  /** A halt keeps what waits on a terminal exactly when it is not its own, and does not clear another line under it. */
  lemma HaltKeepsIff(k: Keyboard, s: nat, base: bool, t: nat)
    requires Sized(k) && s < |k.saved| && t < |k.saved|
    ensures EnteredOf(Step(k, Halt(s, base)), t) == EnteredOf(k, t) && Step(k, Halt(s, base)).entered[t] == k.entered[t]
       <==> (s == t ==> !k.entered[t]) && (base || t != k.visible || k.termBuf == Padded([]))
  {
  }

  /**
   * An event takes or overwrites what waits on `t`: another line entered there, a read or a halt of its own, or a
   * program halting anywhere while it is visible. Entering the very same line again, and clearing an empty one, do not.
   */
  ghost predicate Disturbs(k: Keyboard, e: Event, t: nat)
    requires Sized(k) && Allowed(k, e)
  {
    match e
    case Enter => t == k.visible && k.buf[k.idx := NEWLINE] != k.termBuf
    case Halt(s, base) => s == t || (!base && t == k.visible && k.termBuf != Padded([]))
    case Read(s) => s == t
    case _ => false
  }

  lemma StepWaitsIff(k: Keyboard, e: Event, t: nat)
    requires Sized(k) && Allowed(k, e) && InStep(k, e) && t < |k.saved| && k.entered[t]
    ensures Waits(Step(k, e), t, EnteredOf(k, t)) <==> !Disturbs(k, e, t)
  {
    match e
    case Tab => TabFrame(k, TAB_LENGTH);
    case FKey(u) =>
      SwitchKeepsLines(k, u);
      assert Keeps(k, Switch(k, u), t);
    case _ =>
  }

  /** The line waits after every event of the run. */
  ghost predicate WaitsThroughout(k: Keyboard, es: seq<Event>, t: nat, line: seq<char>)
    requires Sized(k) && RunAllowed(k, es) && t < |k.saved|
    decreases |es|
  {
    Waits(k, t, line) && (es == [] || WaitsThroughout(Step(k, es[0]), es[1..], t, line))
  }

  ghost predicate Undisturbed(k: Keyboard, es: seq<Event>, t: nat)
    requires Sized(k) && RunAllowed(k, es)
    decreases |es|
  {
    es == [] || (!Disturbs(k, es[0], t) && Undisturbed(Step(k, es[0]), es[1..], t))
  }

  /** An entered line waits throughout a run exactly when nothing in the run disturbs it. */
  lemma {:induction false} WaitsIff(k: Keyboard, es: seq<Event>, t: nat)
    requires Sized(k) && RunAllowed(k, es) && t < |k.saved| && k.entered[t]
    ensures WaitsThroughout(k, es, t, EnteredOf(k, t)) <==> Undisturbed(k, es, t)
    decreases |es|
  {
    if es != [] {
      StepWaitsIff(k, es[0], t);
      hide Disturbs, Step, EnteredOf;
      if !Disturbs(k, es[0], t) {
        WaitsIff(Step(k, es[0]), es[1..], t);
      } else {
        assert !Waits(Step(k, es[0]), t, EnteredOf(k, t));
      }
    }
  }

  lemma {:induction false} WaitsAtTheEnd(k: Keyboard, es: seq<Event>, t: nat, line: seq<char>)
    requires Sized(k) && RunAllowed(k, es) && t < |k.saved| && WaitsThroughout(k, es, t, line)
    ensures Waits(Run(k, es), t, line)
    decreases |es|
  {
    if es != [] {
      WaitsAtTheEnd(Step(k, es[0]), es[1..], t, line);
    }
  }

  lemma {:induction false} TabFrame(k: Keyboard, n: nat)
    requires Sized(k)
    ensures var r := AppendSpaces(k, n); r == k.(buf := r.buf, idx := r.idx)
    decreases n
  {
    if n > 0 && k.idx < BUFSIZE - 1 {
      TabFrame(Append(k, SPACE), n - 1);
    }
  }

  /** Typing never puts a newline in a line. */
  lemma {:induction false} NoNewline(line: seq<char>, keys: seq<Event>)
    requires NEWLINE !in line && forall e :: e in keys && e.Char? ==> e.c != NEWLINE
    ensures NEWLINE !in EditAll(line, keys)
    decreases |keys|
  {
    if keys != [] {
      assert keys[0] in keys;
      NoNewline(Edit(line, keys[0]), keys[1..]);
    }
  }

  /** What `terminal_read` hands over for a request of up to 127 bytes; it asks no more of the buffer than it counts. */
  ghost predicate Reads(buf: seq<char>, line: seq<char>, n: nat) {
    && |line| < |buf| && buf[..|line| + 1] == line + [NEWLINE]
    && ReportedBytes(buf, n) == Min(|line| + 1, n + 1)
  }

  lemma ReadsIff(buf: seq<char>, line: seq<char>, n: nat)
    requires |line| < |buf| && NEWLINE !in line
    ensures Reads(buf, line, n) <==> buf[..|line| + 1] == line + [NEWLINE]
  {
    if buf[..|line| + 1] == line + [NEWLINE] {
      assert buf == line + [NEWLINE] + buf[|line| + 1..];
      ReportedLine(line, buf[|line| + 1..], n);
    }
  }

  /** Enter a line on a terminal, then do anything that does not disturb it: it waits there with its newline. */
  lemma TypedLineWaits(k: Keyboard, es: seq<Event>, n: nat)
    requires Sized(k) && Clean(k) && Allowed(k, Enter) && InStep(k, Enter)
    requires NEWLINE !in LineOf(k, k.visible)
    requires RunAllowed(Step(k, Enter), es) && Undisturbed(Step(k, Enter), es, k.visible)
    ensures var t, line, r := k.visible, LineOf(k, k.visible), Run(Step(k, Enter), es);
            r.entered[t] && EnteredOf(r, t) == Held(Line(line)) && Reads(EnteredOf(r, t), line, n)
  {
    var t, k1 := k.visible, Step(k, Enter);
    var line, r := LineOf(k, t), Run(k1, es);
    StepEntered(k, Enter, t, Nothing);
    WaitsIff(k1, es, t);
    WaitsAtTheEnd(k1, es, t, EnteredOf(k1, t));
    HeldReadsIff(Line(line), line, n);
  }

  // ---------------------------------------------------------------- what is entered on each terminal

  /** What was last entered on a terminal: a line, or nothing at first and after a program halts on it. */
  datatype Entered = Nothing | Line(text: seq<char>)

  /** The buffer that holds it. */
  function Held(e: Entered): seq<char> {
    Padded(if e.Line? then e.text + [NEWLINE] else [])
  }

  /** What a terminal's own event, on the line typed there so far, leaves entered there. */
  function EnteredBy(line: seq<char>, was: Entered, e: Event): Entered {
    match e
    case Enter => Line(line)
    case Halt(_, base) => if base then was else Nothing
    case _ => was
  }

  function LastEntered(line: seq<char>, was: Entered, keys: seq<Event>): Entered
    decreases |keys|
  {
    if keys == [] then was else LastEntered(Edit(line, keys[0]), EnteredBy(line, was, keys[0]), keys[1..])
  }

  /** It is the line the keys before the last Enter make, or nothing if a program halted there later. */
  lemma {:induction false} LastEnteredIs(line: seq<char>, was: Entered, before: seq<Event>, e: Event, after: seq<Event>)
    requires e.Enter? || (e.Halt? && !e.base)
    requires forall x :: x in after ==> !x.Enter? && (x.Halt? ==> x.base)
    ensures LastEntered(line, was, before + [e] + after) == if e.Enter? then Line(EditAll(line, before)) else Nothing
    decreases |before|
  {
    if before == [] {
      assert (before + [e] + after)[1..] == after;
      NothingEntered(Edit(line, e), EnteredBy(line, was, e), after);
    } else {
      var first := before[0];
      assert (before + [e] + after)[1..] == before[1..] + [e] + after;
      LastEnteredIs(Edit(line, first), EnteredBy(line, was, first), before[1..], e, after);
    }
  }

  lemma {:induction false} NothingEntered(line: seq<char>, was: Entered, keys: seq<Event>)
    requires forall x :: x in keys ==> !x.Enter? && (x.Halt? ==> x.base)
    ensures LastEntered(line, was, keys) == was
    decreases |keys|
  {
    if keys != [] {
      assert keys[0] in keys;
      NothingEntered(Edit(line, keys[0]), EnteredBy(line, was, keys[0]), keys[1..]);
    }
  }

  lemma {:induction false} LastEnteredNoNewline(line: seq<char>, was: Entered, keys: seq<Event>)
    requires NEWLINE !in line && (was.Line? ==> NEWLINE !in was.text)
    requires forall e :: e in keys && e.Char? ==> e.c != NEWLINE
    ensures var r := LastEntered(line, was, keys); r.Line? ==> NEWLINE !in r.text
    decreases |keys|
  {
    if keys != [] {
      assert keys[0] in keys;
      LastEnteredNoNewline(Edit(line, keys[0]), EnteredBy(line, was, keys[0]), keys[1..]);
    }
  }

  /** An event changes what is entered on the visible terminal only. */
  lemma StepEntered(k: Keyboard, e: Event, t: nat, was: Entered)
    requires Sized(k) && Clean(k) && Allowed(k, e) && InStep(k, e) && t < |k.saved|
    requires !e.Enter? || t != k.visible ==> EnteredOf(k, t) == Held(was)
    ensures EnteredOf(Step(k, e), t) == Held(if t == k.visible then EnteredBy(LineOf(k, t), was, e) else was)
  {
    match e
    case Tab => TabFrame(k, TAB_LENGTH);
    case FKey(u) =>
      SwitchKeepsLines(k, u);
      assert k.alt ==> Keeps(k, Switch(k, u), t);
    case Enter => assert Blank(BufferOf(k, k.visible), k.idx);
    case _ =>
  }

  /** Over any run, what is entered on a terminal is what its own events leave there. */
  lemma {:induction false} EnteredIsFold(k: Keyboard, es: seq<Event>, t: nat, was: Entered)
    requires Sized(k) && Clean(k) && RunAllowed(k, es) && t < |k.saved| && EnteredOf(k, t) == Held(was)
    ensures EnteredOf(Run(k, es), t) == Held(LastEntered(LineOf(k, t), was, KeysFor(es, k.visible, t)))
    decreases |es|
  {
    if es != [] {
      StepEdits(k, es[0], t);
      StepEntered(k, es[0], t, was);
      StepVisible(k, es[0]);
      FirstKey(es, k.visible, t);
      FirstEntered(LineOf(k, t), was, es[0], KeysFor(es[1..], Step(k, es[0]).visible, t));
      hide Step, LineOf, Edit, Clean, InStep, Allowed, EnteredOf, Held, EnteredBy, KeysFor, LastEntered;
      EnteredIsFold(Step(k, es[0]), es[1..], t, if t == k.visible then EnteredBy(LineOf(k, t), was, es[0]) else was);
    }
  }

  lemma FirstEntered(line: seq<char>, was: Entered, e: Event, keys: seq<Event>)
    ensures LastEntered(line, was, [e] + keys) == LastEntered(Edit(line, e), EnteredBy(line, was, e), keys)
  {
    assert ([e] + keys)[1..] == keys;
  }

  lemma HeldReadsIff(e: Entered, line: seq<char>, n: nat)
    requires |Held(e)| == BUFSIZE && |line| < BUFSIZE && NEWLINE !in line && (e.Line? ==> NEWLINE !in e.text)
    ensures Reads(Held(e), line, n) <==> e == Line(line)
  {
    ReadsIff(Held(e), line, n);
    if e.Line? {
      HeldPrefix(e.text, line);
    } else {
      assert Held(e)[|line|] == NUL;
    }
  }

  lemma HeldPrefix(text: seq<char>, line: seq<char>)
    requires |text| < BUFSIZE && |line| < BUFSIZE && NEWLINE !in line && NEWLINE !in text
    ensures Held(Line(text))[..|line| + 1] == line + [NEWLINE] <==> text == line
  {
    var buf := Held(Line(text));
    assert buf[|text|] == NEWLINE && buf[..|text|] == text;
    assert forall j :: 0 <= j < |text| ==> buf[j] == text[j] && buf[j] != NEWLINE;
    if buf[..|line| + 1] == line + [NEWLINE] {
      FirstNewline(buf, line);
    }
  }

  lemma FirstNewline(buf: seq<char>, line: seq<char>)
    requires |line| < |buf| && buf[..|line| + 1] == line + [NEWLINE] && NEWLINE !in line
    ensures buf[|line|] == NEWLINE && buf[..|line|] == line && forall j :: 0 <= j < |line| ==> buf[j] != NEWLINE
  {
    assert buf[..|line| + 1][|line|] == buf[|line|];
    assert forall j :: 0 <= j < |line| ==> buf[j] == line[j] && line[j] in line;
  }

  /** Whatever was typed, entered, halted and switched, a read takes what was last entered on the terminal on screen. */
  lemma ReadTakesLastEntered(terminals: nat, es: seq<Event>, n: nat)
    requires terminals > 0 && RunAllowed(Fresh(terminals), es)
    ensures var r := Run(Fresh(terminals), es);
            var e := LastEntered([], Nothing, KeysFor(es, 0, r.visible));
            && r.termBuf == Held(e)
            && forall line :: |line| < BUFSIZE && NEWLINE !in line ==>
                 (Reads(r.termBuf, line, n) <==> e == Line(line))
  {
    hide LastEntered, KeysFor, Run, RunAllowed, Reads, Held;
    var r := Run(Fresh(terminals), es);
    var e := LastEntered([], Nothing, KeysFor(es, 0, r.visible));
    FreshHolds(terminals, r.visible);
    EnteredIsFold(Fresh(terminals), es, r.visible, Nothing);
    RunKeys(Fresh(terminals), es);
    KeysForWithin(es, 0, r.visible);
    LastEnteredNoNewline([], Nothing, KeysFor(es, 0, r.visible));
    forall line | |line| < BUFSIZE && NEWLINE !in line
      ensures Reads(r.termBuf, line, n) <==> e == Line(line)
    {
      HeldReadsIff(e, line, n);
    }
  }

  lemma FreshHolds(terminals: nat, t: nat)
    requires t < terminals
    ensures EnteredOf(Fresh(terminals), t) == Held(Nothing) && LineOf(Fresh(terminals), t) == []
  {
  }

  /** One character entered on the first terminal and Alt F2: its program reads 128 NULs instead. */
  lemma OffScreenReadGetsAnother()
    ensures var k := Step(Step(Step(Step(Fresh(3), Char('a')), Enter), Alt(true)), FKey(1));
            && k.entered[0] && EnteredOf(k, 0)[..2] == ['a', NEWLINE]
            && k.termBuf == Padded([]) && ReportedBytes(k.termBuf, BUFSIZE - 1) == BUFSIZE
  {
    AllReported(Padded([]), BUFSIZE - 1);
  }

  /** No key of an allowed run is a newline character, and the terminal chosen stays the one visible. */
  lemma {:induction false} RunKeys(k: Keyboard, es: seq<Event>)
    requires Sized(k) && RunAllowed(k, es)
    ensures forall e :: e in es && e.Char? ==> e.c != NEWLINE
    ensures k.chosen == k.visible ==> Run(k, es).chosen == Run(k, es).visible
    decreases |es|
  {
    if es != [] {
      RunKeys(Step(k, es[0]), es[1..]);
      if es[0].Tab? {
        TabFrame(k, TAB_LENGTH);
      }
    }
  }

  lemma {:induction false} KeysForWithin(es: seq<Event>, visible: nat, t: nat)
    ensures forall e :: e in KeysFor(es, visible, t) ==> e in es
    decreases |es|
  {
    if es != [] {
      KeysForWithin(es[1..], if es[0].FKey? then es[0].terminal else visible, t);
    }
  }

  lemma {:induction false} RunSplit(k: Keyboard, a: seq<Event>, b: seq<Event>)
    requires Sized(k) && RunAllowed(k, a) && RunAllowed(Run(k, a), b)
    ensures RunAllowed(k, a + b) && Run(k, a + b) == Run(Run(k, a), b)
    decreases |a|
  {
    if a == [] {
      assert a + b == b;
    } else {
      assert (a + b)[1..] == a[1..] + b;
      RunSplit(Step(k, a[0]), a[1..], b);
    }
  }

  /**
   * All together: type anything on any terminals, press Enter on one, do anything that does not disturb its line, and
   * read there. What waits is exactly what the keys typed on that terminal make. It is what is read if the terminal is
   * on screen; in any case it is what is read exactly when it is the line last entered on the one that is.
   */
  lemma TypedLineRoundTrip(terminals: nat, typed: seq<Event>, later: seq<Event>, n: nat)
    requires terminals > 0 && RunAllowed(Fresh(terminals), typed)
    requires var k := Run(Fresh(terminals), typed);
             && Allowed(k, Enter)
             && RunAllowed(Step(k, Enter), later) && Undisturbed(Step(k, Enter), later, k.visible)
    ensures var t, es := Run(Fresh(terminals), typed).visible, typed + ([Enter] + later);
            var line := EditAll([], KeysFor(typed, 0, t));
            && RunAllowed(Fresh(terminals), es)
            && var r := Run(Fresh(terminals), es);
               && r.entered[t] && |line| < BUFSIZE && EnteredOf(r, t) == Held(Line(line))
               && (r.visible == t ==> Reads(r.termBuf, line, n))
               && (Reads(r.termBuf, line, n) <==> LastEntered([], Nothing, KeysFor(es, 0, r.visible)) == Line(line))
  {
    var k, es := Run(Fresh(terminals), typed), typed + ([Enter] + later);
    LineIsFold(Fresh(terminals), typed, k.visible);
    RunKeys(Fresh(terminals), typed);
    KeysForWithin(typed, 0, k.visible);
    NoNewline([], KeysFor(typed, 0, k.visible));
    FreshHolds(terminals, k.visible);
    assert ([Enter] + later)[1..] == later;
    RunSplit(Fresh(terminals), typed, [Enter] + later);
    hide EditAll, KeysFor, ReportedBytes, RunAllowed, Undisturbed, Step, Reads, LastEntered, Held;
    TypedLineWaits(k, later, n);
    ReadTakesLastEntered(terminals, es, n);
  }

  /** A line entered on the first terminal is lost when a program halts on the second: the visible buffer is cleared. */
  lemma HaltElsewhereLosesLine()
    ensures var k := Step(Step(Fresh(3), Char('a')), Enter);
            && k.entered[0] && EnteredOf(k, 0)[..2] == ['a', NEWLINE]
            && var r := Step(k, Halt(1, false));
               r.entered[0] && EnteredOf(r, 0) == Padded([]) && ReportedBytes(EnteredOf(r, 0), BUFSIZE - 1) == BUFSIZE
  {
    AllReported(Padded([]), BUFSIZE - 1);
  }

  lemma {:induction false} AllReported(buf: seq<char>, n: nat)
    requires NEWLINE !in buf
    ensures ReportedBytes(buf, n) == Min(|buf|, n + 1)
  {
    if buf != [] {
      assert buf[0] in buf;
      if n > 0 { AllReported(buf[1..], n - 1); }
    }
  }
}
