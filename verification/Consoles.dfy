/**
 * The virtual consoles as states and steps: one VGA page, a backing page for each terminal, and a remapped
 * page-table entry. They are shown to be independent screens, each a window onto its own paper.
 */
module Consoles {
  import opened Screen

  /** The physical page number of VGA memory; terminal `t`'s backing page is the `t + 1`-th after it. */
  const VIDEO_PAGE := 0xB8

  /**
   * Terminals are numbered from 0. `pages[0]` is the VGA page and `pages[t + 1]` terminal `t`'s backing page;
   * `entry` is the page-table entry for VGA memory, `vidEntry` the one `vidmap` hands to programs;
   * `previous` and `chosen` are `recentTermChoice`.
   */
  datatype Video = Video(
    pages: seq<seq<Cell>>, xs: seq<int>, ys: seq<int>,
    visible: nat, previous: nat, chosen: nat, scheduled: nat,
    entry: int, vidEntry: int,
    reading: seq<bool>, started: seq<bool>, booted: bool)

  datatype Event =
    | Putc(c: char)
    | KeyboardPutc(c: char)
    | Tick
    | FKey(terminal: nat, alt: bool)
    | Vidmap
    | Clear
    | SetReading(flag: bool)

  /** A key names a terminal; what `putc` does with a backspace is not a matter of one screen and is left out. */
  ghost predicate Proper(e: Event, terminals: nat) {
    && (e.FKey? ==> e.terminal < terminals)
    && (e.Putc? || e.KeyboardPutc? ==> e.c != BACKSPACE)
  }

  ghost predicate Sized(v: Video) {
    && 0 < |v.xs| == |v.ys| == |v.reading| == |v.started| && |v.pages| == |v.xs| + 1
    && v.visible < |v.xs| && v.previous < |v.xs| && v.chosen < |v.xs| && v.scheduled < |v.xs|
    && (forall p :: 0 <= p < |v.pages| ==> |v.pages[p]| == PAGE_CELLS)
    && (forall t :: 0 <= t < |v.xs| ==> 0 <= v.xs[t] < COLS && 0 <= v.ys[t] < ROWS)
  }

  /** Which page holds a terminal's screen. */
  function PageOf(v: Video, t: nat): nat {
    if t == v.visible then 0 else t + 1
  }

  /** Between steps both entries lead to the scheduled terminal's screen, wherever it is. */
  ghost predicate Mapped(v: Video) {
    v.entry == v.vidEntry == VIDEO_PAGE + PageOf(v, v.scheduled)
  }

  function ScreenOf(v: Video, t: nat): (s: Screen)
    requires Sized(v) && t < |v.xs|
    ensures Ok(s)
  {
    Screen(v.pages[PageOf(v, t)], v.xs[t], v.ys[t])
  }

  // ---------------------------------------------------------------- the steps

  /** `putc` through a mapping to page `p`, at terminal `t`'s cursor. */
  function PutOn(v: Video, p: nat, t: nat, c: char): (r: Video)
    requires c != BACKSPACE && Sized(v) && p < |v.pages| && t < |v.xs|
    ensures Sized(r) && |r.xs| == |v.xs|
  {
    var s := PutChar(Screen(v.pages[p], v.xs[t], v.ys[t]), c);
    v.(pages := v.pages[p := s.cells], xs := v.xs[t := s.x], ys := v.ys[t := s.y])
  }

  function SetPaging(v: Video, current: nat): Video {
    var e := VIDEO_PAGE + (if v.scheduled == current then 0 else v.scheduled + 1);
    v.(entry := e, vidEntry := e)
  }

  /** Swap the visible page out to its backing page and the chosen terminal's in. */
  function TerminalChanging(v: Video): (r: Video)
    requires Sized(v)
    ensures Sized(r) && |r.xs| == |v.xs|
  {
    if v.chosen == v.visible then v
    else v.(pages := v.pages[v.visible + 1 := v.pages[0]][0 := v.pages[v.chosen + 1]], visible := v.chosen)
  }

  /** `terminal_changing_handler` with this pair of recent choices. */
  function ChangeTo(v: Video, previous: nat, chosen: nat): (r: Video)
    requires Sized(v) && previous < |v.xs| && chosen < |v.xs|
    ensures Sized(r) && |r.xs| == |v.xs|
  {
    TerminalChanging(SetPaging(v.(previous := previous, chosen := chosen), chosen))
  }

  function ClearVisible(v: Video): (r: Video)
    requires Sized(v)
    ensures Sized(r) && |r.xs| == |v.xs|
  {
    var s := Cleared(Screen(v.pages[0], 0, 0));
    v.(pages := v.pages[0 := s.cells], xs := v.xs[v.visible := 0], ys := v.ys[v.visible := 0])
  }

  /** The timer's remapping for the terminal it moves to. */
  function Reschedule(v: Video, next: nat): (r: Video)
    requires Sized(v) && next < |v.xs|
    ensures Sized(r) && |r.xs| == |v.xs|
  {
    SetPaging(v.(scheduled := next), v.visible)
  }

  /** The first tick on a terminal shows it and clears its screen. */
  function StartTick(v: Video, next: nat): (r: Video)
    requires Sized(v) && next < |v.xs|
    ensures Sized(r) && |r.xs| == |v.xs|
  {
    ClearVisible(ChangeTo(Reschedule(v, next), v.chosen, next)).(started := v.started[next := true])
  }

  /** The tick that completes boot goes back to showing the first terminal. */
  function FirstRound(v: Video, next: nat): (r: Video)
    requires Sized(v) && next < |v.xs|
    ensures Sized(r) && |r.xs| == |v.xs|
  {
    ChangeTo(Reschedule(v, next), |v.xs| - 1, 0).(booted := true)
  }

  /** A tick that moves to terminal `next`. */
  function TickTo(v: Video, next: nat): (r: Video)
    requires Sized(v) && next < |v.xs|
    ensures Sized(r) && |r.xs| == |v.xs|
  {
    if next != 0 && !v.started[next] then StartTick(v, next)
    else if !v.booted then FirstRound(v, next)
    else Reschedule(v, next)
  }

  function Step(v: Video, e: Event): (r: Video)
    requires Sized(v) && Mapped(v) && Proper(e, |v.xs|)
    ensures Sized(r) && |r.xs| == |v.xs|
  {
    match e
    case Putc(c) => PutOn(v, v.entry - VIDEO_PAGE, v.scheduled, c)
    case KeyboardPutc(c) => if v.reading[v.visible] then PutOn(v, 0, v.visible, c) else v
    case Tick => TickTo(v, (v.scheduled + 1) % |v.xs|)
    case FKey(t, alt) => if alt then ChangeTo(v, v.chosen, t) else v.(previous := v.chosen, chosen := t)
    case Vidmap => v.(vidEntry := VIDEO_PAGE + PageOf(v, v.scheduled))
    case Clear => ClearVisible(v)
    case SetReading(flag) => v.(reading := v.reading[v.scheduled := flag])
  }

  // ---------------------------------------------------------------- independent screens

  /** What the user sees: a screen for each terminal, of which one shows and one's program runs. */
  datatype Desk = Desk(
    screens: seq<Screen>, visible: nat, scheduled: nat, reading: seq<bool>, started: seq<bool>, booted: bool)

  ghost predicate OkDesk(d: Desk) {
    && 0 < |d.screens| == |d.reading| == |d.started| && d.visible < |d.screens| && d.scheduled < |d.screens|
    && (forall t :: 0 <= t < |d.screens| ==> Ok(d.screens[t]))
  }

  function DeskOf(v: Video): (d: Desk)
    requires Sized(v)
    ensures OkDesk(d) && |d.screens| == |v.xs|
  {
    Desk(seq(|v.xs|, t requires 0 <= t < |v.xs| => ScreenOf(v, t)),
         v.visible, v.scheduled, v.reading, v.started, v.booted)
  }

  function PutScreen(d: Desk, t: nat, c: char): (r: Desk)
    requires OkDesk(d) && t < |d.screens| && c != BACKSPACE
    ensures OkDesk(r)
  {
    d.(screens := d.screens[t := PutChar(d.screens[t], c)])
  }

  /** The first tick on a terminal shows it cleared; the one that ends the first round shows the first terminal. */
  function DeskTick(d: Desk, next: nat): (r: Desk)
    requires OkDesk(d) && next < |d.screens|
    ensures OkDesk(r) && |r.screens| == |d.screens|
  {
    if next != 0 && !d.started[next] then
      d.(screens := d.screens[next := Cleared(d.screens[next])], visible := next, scheduled := next,
         started := d.started[next := true])
    else d.(scheduled := next, visible := if d.booted then d.visible else 0, booted := true)
  }

  /** Each event touches one screen at most. */
  function DeskStep(d: Desk, e: Event): (r: Desk)
    requires OkDesk(d) && Proper(e, |d.screens|)
    ensures OkDesk(r) && |r.screens| == |d.screens|
  {
    match e
    case Putc(c) => PutScreen(d, d.scheduled, c)
    case KeyboardPutc(c) => if d.reading[d.visible] then PutScreen(d, d.visible, c) else d
    case Tick => DeskTick(d, (d.scheduled + 1) % |d.screens|)
    case FKey(t, alt) => if alt then d.(visible := t) else d
    case Vidmap => d
    case Clear => d.(screens := d.screens[d.visible := Cleared(d.screens[d.visible])])
    case SetReading(flag) => d.(reading := d.reading[d.scheduled := flag])
  }

  /** Switching terminals moves pages about, and leaves every terminal's screen as it was. */
  lemma SwitchKeepsScreens(v: Video, previous: nat, chosen: nat)
    requires Sized(v) && previous < |v.xs| && chosen < |v.xs|
    ensures Mapped(ChangeTo(v, previous, chosen))
    ensures DeskOf(ChangeTo(v, previous, chosen)) == DeskOf(v).(visible := chosen)
  {
    assert forall t :: 0 <= t < |v.xs| ==> ScreenOf(ChangeTo(v, previous, chosen), t) == ScreenOf(v, t);
  }

  lemma ClearKeepsOthers(v: Video)
    requires Sized(v)
    ensures DeskOf(ClearVisible(v)) == DeskStep(DeskOf(v), Clear)
  {
    assert forall t :: 0 <= t < |v.xs| && t != v.visible ==> ScreenOf(ClearVisible(v), t) == ScreenOf(v, t);
  }

  lemma PutKeepsOthers(v: Video, t: nat, c: char)
    requires Sized(v) && t < |v.xs| && c != BACKSPACE
    ensures DeskOf(PutOn(v, PageOf(v, t), t, c)) == PutScreen(DeskOf(v), t, c)
  {
    var r := PutOn(v, PageOf(v, t), t, c);
    assert forall u :: 0 <= u < |v.xs| && u != t ==> ScreenOf(r, u) == ScreenOf(v, u);
  }

  lemma SameScreens(v: Video, w: Video)
    requires Sized(v) && Sized(w)
    requires w.pages == v.pages && w.xs == v.xs && w.ys == v.ys && w.visible == v.visible
    ensures DeskOf(w).screens == DeskOf(v).screens
  {
    assert forall t :: 0 <= t < |v.xs| ==> ScreenOf(w, t) == ScreenOf(v, t);
  }

  lemma StartTickRefines(v: Video, next: nat)
    requires Sized(v) && next < |v.xs|
    ensures var r, d := StartTick(v, next), DeskOf(v);
            && Mapped(r)
            && DeskOf(r) == d.(screens := d.screens[next := Cleared(d.screens[next])],
                               visible := next, scheduled := next, started := d.started[next := true])
  {
    var v1 := Reschedule(v, next);
    SameScreens(v, v1);
    SwitchKeepsScreens(v1, v.chosen, next);
    var v2 := ChangeTo(v1, v.chosen, next);
    ClearKeepsOthers(v2);
    SameScreens(ClearVisible(v2), ClearVisible(v2).(started := v.started[next := true]));
    hide ScreenOf, ChangeTo, Cleared;
  }

  lemma FirstRoundRefines(v: Video, next: nat)
    requires Sized(v) && next < |v.xs|
    ensures var r := FirstRound(v, next);
            Mapped(r) && DeskOf(r) == DeskOf(v).(visible := 0, scheduled := next, booted := true)
  {
    var v1 := Reschedule(v, next);
    SameScreens(v, v1);
    SwitchKeepsScreens(v1, |v.xs| - 1, 0);
    var v2 := ChangeTo(v1, |v.xs| - 1, 0);
    hide ScreenOf, ChangeTo;
    SameScreens(v2, v2.(booted := true));
  }

  lemma RescheduleRefines(v: Video, next: nat)
    requires Sized(v) && next < |v.xs|
    ensures Mapped(Reschedule(v, next)) && DeskOf(Reschedule(v, next)) == DeskOf(v).(scheduled := next)
  {
    SameScreens(v, Reschedule(v, next));
    hide ScreenOf;
  }

  lemma TickRefines(v: Video, next: nat)
    requires Sized(v) && next < |v.xs|
    ensures Mapped(TickTo(v, next)) && DeskOf(TickTo(v, next)) == DeskTick(DeskOf(v), next)
  {
    StartTickRefines(v, next);
    FirstRoundRefines(v, next);
    RescheduleRefines(v, next);
    hide ScreenOf, StartTick, FirstRound, Reschedule, Cleared, Mapped;
  }

  /** Any step keeps the mapping invariant and does to the screens what it does to independent ones. */
  lemma StepRefines(v: Video, e: Event)
    requires Sized(v) && Mapped(v) && Proper(e, |v.xs|)
    ensures Mapped(Step(v, e)) && DeskOf(Step(v, e)) == DeskStep(DeskOf(v), e)
  {
    hide TickTo, DeskTick, ChangeTo, PutChar, Cleared;
    match e
    case Putc(c) => PutKeepsOthers(v, v.scheduled, c);
    case KeyboardPutc(c) => PutKeepsOthers(v, v.visible, c);
    case Tick => TickRefines(v, (v.scheduled + 1) % |v.xs|);
    case FKey(t, alt) =>
      SwitchKeepsScreens(v, v.chosen, t);
      SameScreens(v, v.(previous := v.chosen, chosen := t));
    case Vidmap =>
    case Clear => ClearKeepsOthers(v);
    case SetReading(flag) =>
      SameScreens(v, Step(v, e));
  }

  // ---------------------------------------------------------------- whole runs

  ghost predicate AllProper(es: seq<Event>, terminals: nat) {
    forall e :: e in es ==> Proper(e, terminals)
  }

  function Run(v: Video, es: seq<Event>): (r: Video)
    requires Sized(v) && Mapped(v) && AllProper(es, |v.xs|)
    ensures Sized(r) && |r.xs| == |v.xs|
    decreases |es|
  {
    if es == [] then v
    else
      assert es[0] in es;
      StepRefines(v, es[0]);
      Run(Step(v, es[0]), es[1..])
  }

  function DeskRun(d: Desk, es: seq<Event>): (r: Desk)
    requires OkDesk(d) && AllProper(es, |d.screens|)
    ensures OkDesk(r) && |r.screens| == |d.screens|
    decreases |es|
  {
    if es == [] then d else (assert es[0] in es; DeskRun(DeskStep(d, es[0]), es[1..]))
  }

  /** On every run, boot included, the mapping invariant holds and the consoles act as independent screens. */
  lemma {:induction false} RunRefines(v: Video, es: seq<Event>)
    requires Sized(v) && Mapped(v) && AllProper(es, |v.xs|)
    ensures Mapped(Run(v, es)) && DeskOf(Run(v, es)) == DeskRun(DeskOf(v), es)
    decreases |es|
  {
    if es != [] {
      assert es[0] in es;
      StepRefines(v, es[0]);
      RunRefines(Step(v, es[0]), es[1..]);
    }
  }

  /** The characters an event prints on terminal `t`: its program's, or those echoed while it is visible and reading. */
  function Printed(d: Desk, e: Event, t: nat): (text: seq<char>)
    requires OkDesk(d) && Proper(e, |d.screens|)
    ensures BACKSPACE !in text
  {
    match e
    case Putc(c) => if d.scheduled == t then [c] else []
    case KeyboardPutc(c) => if d.visible == t && d.reading[t] then [c] else []
    case _ => []
  }

  /** The event clears terminal `t`'s screen: it is visible and `clear` runs, or its first tick has come. */
  predicate Clears(d: Desk, e: Event, t: nat)
    requires OkDesk(d)
  {
    match e
    case Clear => d.visible == t
    case Tick =>
      var next := (d.scheduled + 1) % |d.screens|;
      next == t && next != 0 && !d.started[next]
    case _ => false
  }

  /** The text on terminal `t` after an event, `text` being what was on it since it was last cleared. */
  function TextAfter(d: Desk, e: Event, t: nat, text: seq<char>): (r: seq<char>)
    requires OkDesk(d) && Proper(e, |d.screens|)
    ensures BACKSPACE !in text ==> BACKSPACE !in r
  {
    if Clears(d, e, t) then [] else text + Printed(d, e, t)
  }

  /** The text on terminal `t` after a run. */
  function TextSince(d: Desk, es: seq<Event>, t: nat, text: seq<char>): (r: seq<char>)
    requires OkDesk(d) && AllProper(es, |d.screens|)
    ensures BACKSPACE !in text ==> BACKSPACE !in r
    decreases |es|
  {
    if es == [] then text
    else (assert es[0] in es; TextSince(DeskStep(d, es[0]), es[1..], t, TextAfter(d, es[0], t, text)))
  }

  /** A terminal that has been started shows the end of its text. */
  ghost predicate Showing(d: Desk, t: nat, text: seq<char>)
    requires OkDesk(d) && t < |d.screens| && BACKSPACE !in text
  {
    d.started[t] ==> Shows(d.screens[t], Layout(text))
  }

  lemma ClearShows(s: Screen)
    requires |s.cells| == PAGE_CELLS
    ensures Shows(Cleared(s), Layout([]))
  {
    WindowOverPaper(s, []);
  }

  lemma WriteShown(s: Screen, text: seq<char>, c: char)
    requires BACKSPACE !in text && c != BACKSPACE && Shows(s, Layout(text))
    ensures Shows(PutChar(s, c), Layout(text + [c]))
  {
    PutCharShows(s, Layout(text), c);
    assert (text + [c])[..|text|] == text;
  }

  lemma StepShowing(d: Desk, e: Event, t: nat, text: seq<char>)
    requires OkDesk(d) && Proper(e, |d.screens|) && t < |d.screens| && BACKSPACE !in text && Showing(d, t, text)
    ensures Showing(DeskStep(d, e), t, TextAfter(d, e, t, text))
  {
    ClearShows(d.screens[t]);
    if Printed(d, e, t) != [] && d.started[t] {
      WriteShown(d.screens[t], text, e.c);
    } else {
      assert text + [] == text;
    }
  }

  lemma {:induction false} RunShowing(d: Desk, es: seq<Event>, t: nat, text: seq<char>)
    requires OkDesk(d) && AllProper(es, |d.screens|) && t < |d.screens| && BACKSPACE !in text && Showing(d, t, text)
    ensures Showing(DeskRun(d, es), t, TextSince(d, es, t, text))
    decreases |es|
  {
    if es != [] {
      assert es[0] in es;
      StepShowing(d, es[0], t, text);
      RunShowing(DeskStep(d, es[0]), es[1..], t, TextAfter(d, es[0], t, text));
    }
  }

  /** As `kernel_main` leaves the video state: VGA memory mapped and cleared, the backing pages holding anything. */
  ghost predicate PoweredOn(v: Video) {
    && Sized(v) && v.entry == v.vidEntry == VIDEO_PAGE
    && v.visible == v.previous == v.chosen == v.scheduled == 0 && !v.booted
    && (forall t :: 0 <= t < |v.started| ==> (v.started[t] <==> t == 0))
    && ScreenOf(v, 0) == Cleared(ScreenOf(v, 0))
  }

  /**
   * All together: from power on, through boot and any run after it, the mapping invariant holds, and every terminal
   * that has been started shows the end of exactly the text printed to it since it was last cleared, whatever the
   * other terminals print and however the user switches.
   */
  lemma ConsolesAreIndependent(v: Video, es: seq<Event>, t: nat)
    requires PoweredOn(v) && AllProper(es, |v.xs|) && t < |v.xs|
    ensures var r := Run(v, es);
            Mapped(r) && (r.started[t] ==> Shows(ScreenOf(r, t), Layout(TextSince(DeskOf(v), es, t, []))))
  {
    RunRefines(v, es);
    ClearShows(ScreenOf(v, 0));
    RunShowing(DeskOf(v), es, t, []);
    assert DeskOf(Run(v, es)).screens[t] == ScreenOf(Run(v, es), t);
  }
}
