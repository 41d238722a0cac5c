/** The console code as it runs: video memory, page-table entries and cursors updated in place. */
module VideoDriver {
  import opened Bytes
  import opened Screen
  import opened Consoles

  /** Physical video memory as its pages. */
  ghost function Pages(mem: seq<Cell>, n: nat): (pages: seq<seq<Cell>>)
    requires |mem| == PAGE_CELLS * n
    ensures |pages| == n && forall p :: 0 <= p < n ==> |pages[p]| == PAGE_CELLS
  {
    seq(n, p requires 0 <= p < n => mem[PAGE_CELLS * p..PAGE_CELLS * (p + 1)])
  }

  /** Memory that changes inside one page only. */
  lemma OnePageChanged(before: seq<Cell>, after: seq<Cell>, n: nat, p: nat)
    requires |before| == |after| == PAGE_CELLS * n && p < n
    requires forall i :: 0 <= i < |before| && !(PAGE_CELLS * p <= i < PAGE_CELLS * (p + 1)) ==> after[i] == before[i]
    ensures Pages(after, n) == Pages(before, n)[p := after[PAGE_CELLS * p..PAGE_CELLS * (p + 1)]]
  {
    var a, b := Pages(after, n), Pages(before, n);
    forall q | 0 <= q < n && q != p
      ensures a[q] == b[q]
    {
      assert forall i :: PAGE_CELLS * q <= i < PAGE_CELLS * (q + 1) ==> after[i] == before[i];
    }
  }

  class Terminals {
    const mem: array<Cell>
    const termX: array<int>
    const termY: array<int>
    const readFlag: array<bool>
    const instantiated: array<bool>
    var visible: nat
    var previous: nat
    var chosen: nat
    var scheduled: nat
    var entry: int
    var vidEntry: int
    var keyboardPut: bool
    var doneInstantiating: bool

    ghost predicate Shape()
      reads this, mem, termX, termY, readFlag, instantiated
    {
      && termX != termY && readFlag != instantiated && mem.Length == PAGE_CELLS * (termX.Length + 1)
      && Sized(View())
    }

    ghost function View(): Video
      requires mem.Length == PAGE_CELLS * (termX.Length + 1)
      reads this, mem, termX, termY, readFlag, instantiated
    {
      Video(Pages(mem[..], termX.Length + 1), termX[..], termY[..], visible, previous, chosen, scheduled,
            entry, vidEntry, readFlag[..], instantiated[..], doneInstantiating)
    }

    ghost predicate Valid()
      reads this, mem, termX, termY, readFlag, instantiated
    {
      Shape() && Mapped(View()) && !keyboardPut
    }

    /** Copy row `i + 1` of a page onto row `i`, cell by cell. */
    method CopyRowUp(base: nat, i: nat)
      requires i < ROWS - 1 && base + PAGE_CELLS <= mem.Length
      modifies mem
      ensures forall k :: 0 <= k < mem.Length ==>
                mem[k] == if base + COLS * i <= k < base + COLS * (i + 1) then Cell(old(mem[k + COLS].ch), ATTRIB)
                          else old(mem[k])
    {
      var to, from := base + COLS * i, base + COLS * (i + 1);
      var j := 0;
      while j < COLS
        invariant 0 <= j <= COLS
        invariant forall k :: 0 <= k < mem.Length ==>
                    mem[k] == if to <= k < to + j then Cell(old(mem[k + COLS].ch), ATTRIB) else old(mem[k])
      {
        mem[to + j] := mem[to + j].(ch := mem[from + j].ch);
        mem[to + j] := mem[to + j].(attr := ATTRIB);
        j := j + 1;
      }
    }

    /** Move the rows of a page up by one, in place, and blank the last. */
    method ScrollUp(base: nat)
      requires base + PAGE_CELLS <= mem.Length
      modifies mem
      ensures mem[base..base + PAGE_CELLS] == Scrolled(old(mem[base..base + PAGE_CELLS]))
      ensures forall k :: 0 <= k < mem.Length && !(base <= k < base + PAGE_CELLS) ==> mem[k] == old(mem[k])
    {
      var i := 0;
      while i < ROWS - 1
        invariant 0 <= i <= ROWS - 1
        invariant forall k :: 0 <= k < mem.Length ==>
                    mem[k] == if base <= k < base + COLS * i then Cell(old(mem[k + COLS].ch), ATTRIB) else old(mem[k])
      {
        CopyRowUp(base, i);
        i := i + 1;
      }
      BlankLastRow(base);
    }

    method BlankLastRow(base: nat)
      requires base + PAGE_CELLS <= mem.Length
      modifies mem
      ensures forall k :: 0 <= k < mem.Length ==>
                mem[k] == if base + CELLS - COLS <= k < base + CELLS then Cell(NUL, ATTRIB) else old(mem[k])
    {
      var last := base + COLS * (ROWS - 1);
      var j := 0;
      while j < COLS
        invariant 0 <= j <= COLS
        invariant forall k :: 0 <= k < mem.Length ==>
                    mem[k] == if last <= k < last + j then Cell(NUL, ATTRIB) else old(mem[k])
      {
        mem[last + j] := mem[last + j].(ch := NUL);
        mem[last + j] := mem[last + j].(attr := ATTRIB);
        j := j + 1;
      }
    }

    /** Store a character at a terminal's cursor and advance it, without scrolling. */
    method Advance(base: nat, t: nat, c: char)
      requires termX != termY && t < termX.Length == termY.Length && base + PAGE_CELLS <= mem.Length
      requires 0 <= termX[t] < COLS && 0 <= termY[t] < ROWS
      modifies mem, termX, termY
      ensures var x, y := old(termX[t]), old(termY[t]);
              var full := c == NEWLINE || c == RETURN || x + 1 >= COLS;
              && mem[..] == (if c == NEWLINE || c == RETURN then old(mem[..])
                             else old(mem[..])[base + COLS * y + x := Cell(c, ATTRIB)])
              && termX[..] == old(termX[..])[t := if full then 0 else x + 1]
              && termY[..] == old(termY[..])[t := if full then y + 1 else y]
    {
      if c == NEWLINE || c == RETURN {
        termY[t] := termY[t] + 1;
        termX[t] := 0;
      } else {
        mem[base + COLS * termY[t] + termX[t]] := mem[base + COLS * termY[t] + termX[t]].(ch := c);
        mem[base + COLS * termY[t] + termX[t]] := mem[base + COLS * termY[t] + termX[t]].(attr := ATTRIB);
        termX[t] := termX[t] + 1;
        if termX[t] >= COLS {
          termX[t] := 0;
          termY[t] := termY[t] + 1;
        }
      }
    }

    /** Scroll a page whose cursor has gone below the last row. */
    method ScrollIfNeeded(base: nat, t: nat)
      requires termX != termY && t < termX.Length == termY.Length && base + PAGE_CELLS <= mem.Length
      requires 0 <= termY[t] <= ROWS && (termY[t] == ROWS ==> termX[t] == 0)
      modifies mem, termX, termY
      ensures old(termY[t]) < ROWS ==> mem[..] == old(mem[..]) && termY[..] == old(termY[..])
      ensures old(termY[t]) == ROWS ==>
                && mem[base..base + PAGE_CELLS] == Scrolled(old(mem[base..base + PAGE_CELLS]))
                && termY[..] == old(termY[..])[t := ROWS - 1]
      ensures termX[..] == old(termX[..])
      ensures forall k :: 0 <= k < mem.Length && !(base <= k < base + PAGE_CELLS) ==> mem[k] == old(mem[k])
    {
      if termY[t] > ROWS - 1 {
        ScrollUp(base);
        termX[t] := 0;
        termY[t] := ROWS - 1;
      }
    }

    /** `putc` on the page at `base` with terminal `t`'s cursor. */
    method PrintAt(base: nat, t: nat, c: char)
      requires c != BACKSPACE && termX != termY && t < termX.Length == termY.Length && base + PAGE_CELLS <= mem.Length
      requires 0 <= termX[t] < COLS && 0 <= termY[t] < ROWS
      modifies mem, termX, termY
      ensures var r := PutChar(Screen(old(mem[base..base + PAGE_CELLS]), old(termX[t]), old(termY[t])), c);
              && mem[base..base + PAGE_CELLS] == r.cells
              && termX[..] == old(termX[..])[t := r.x] && termY[..] == old(termY[..])[t := r.y]
      ensures forall k :: 0 <= k < mem.Length && !(base <= k < base + PAGE_CELLS) ==> mem[k] == old(mem[k])
    {
      hide Scrolled;
      ghost var before, at := mem[..], COLS * termY[t] + termX[t];
      assert before[base..base + PAGE_CELLS] == mem[base..base + PAGE_CELLS];
      Advance(base, t, c);
      PageWrite(before, mem[..], base, at, Cell(c, ATTRIB));
      assert mem[..][base..base + PAGE_CELLS] == mem[base..base + PAGE_CELLS];
      ScrollIfNeeded(base, t);
    }

    /** Print one character through the current mapping. */
    method Putc(c: char)
      requires Shape() && c != BACKSPACE && 0 <= entry - VIDEO_PAGE <= termX.Length
      modifies mem, termX, termY
      ensures Shape()
      ensures View() == PutOn(old(View()), entry - VIDEO_PAGE, if keyboardPut then visible else scheduled, c)
    {
      hide PutChar;
      ghost var before := mem[..];
      var t := scheduled;
      if keyboardPut {
        t := visible;
      }
      var base := PAGE_CELLS * (entry - VIDEO_PAGE);
      assert mem[base..base + PAGE_CELLS] == View().pages[entry - VIDEO_PAGE];
      PrintAt(base, t, c);
      OnePageChanged(before, mem[..], termX.Length + 1, entry - VIDEO_PAGE);
      assert mem[..][base..base + PAGE_CELLS] == mem[base..base + PAGE_CELLS];
    }

    /** Echo a typed character on the visible screen while its program reads; the mapping is put back. */
    method KeyboardPutc(c: char)
      requires Valid() && c != BACKSPACE
      modifies `entry, `keyboardPut, mem, termX, termY
      ensures Valid() && View() == Step(old(View()), Event.KeyboardPutc(c))
    {
      hide PutOn;
      if readFlag[visible] {
        var oldAddr := entry;
        entry := VIDEO_PAGE;
        keyboardPut := true;
        ghost var v := View();
        Putc(c);
        keyboardPut := false;
        assert View() == PutOn(v, 0, visible, c);
        PutFrame(v, 0, visible, c, oldAddr);
        entry := oldAddr;
      }
    }

    method SetPagingScheduling(current: nat)
      requires Shape()
      modifies `entry, `vidEntry
      ensures Shape() && View() == SetPaging(old(View()), current)
    {
      if scheduled == current {
        vidEntry := VIDEO_PAGE;
        entry := VIDEO_PAGE;
      } else {
        vidEntry := VIDEO_PAGE + (scheduled + 1);
        entry := VIDEO_PAGE + (scheduled + 1);
      }
    }

    method CopyCells(to: nat, from: nat)
      requires to + PAGE_CELLS <= mem.Length && from + PAGE_CELLS <= mem.Length
      modifies mem
      ensures mem[to..to + PAGE_CELLS] == old(mem[from..from + PAGE_CELLS])
      ensures forall k :: 0 <= k < mem.Length && !(to <= k < to + PAGE_CELLS) ==> mem[k] == old(mem[k])
    {
      forall i | 0 <= i < PAGE_CELLS {
        mem[to + i] := mem[from + i];
      }
    }

    method CopyPage(to: nat, from: nat)
      requires Shape() && to <= termX.Length && from <= termX.Length
      modifies mem
      ensures Shape() && View() == old(View()).(pages := old(View()).pages[to := old(View()).pages[from]])
    {
      ghost var v, before := View(), mem[..];
      CopyCells(PAGE_CELLS * to, PAGE_CELLS * from);
      OnePageChanged(before, mem[..], termX.Length + 1, to);
      assert mem[..][PAGE_CELLS * to..PAGE_CELLS * (to + 1)] == v.pages[from];
    }

    /** Save the page on screen and restore the chosen terminal's, with VGA memory mapped meanwhile. */
    method TerminalChange()
      requires Shape()
      modifies `entry, `visible, mem
      ensures Shape() && View() == TerminalChanging(old(View()))
    {
      hide Pages;
      var temp := entry;
      entry := VIDEO_PAGE;
      if chosen != visible {
        CopyPage(visible + 1, 0);
        CopyPage(0, chosen + 1);
        visible := chosen;
      }
      entry := temp;
    }

    method ChangeHandler(previousChoice: nat, choice: nat)
      requires Shape() && previousChoice < termX.Length && choice < termX.Length
      modifies `previous, `chosen, `entry, `vidEntry, `visible, mem
      ensures Shape() && View() == ChangeTo(old(View()), previousChoice, choice)
    {
      previous, chosen := previousChoice, choice;
      SetPagingScheduling(chosen);
      TerminalChange();
    }

    /** An F-key: the choice is recorded always, the switch made only with Alt. */
    method FKeyPress(terminal: nat, alt: bool)
      requires Valid() && terminal < termX.Length
      modifies `previous, `chosen, `entry, `vidEntry, `visible, mem
      ensures Valid() && View() == Step(old(View()), FKey(terminal, alt))
    {
      ghost var v := View();
      StepRefines(v, FKey(terminal, alt));
      if alt {
        ChangeHandler(chosen, terminal);
      } else {
        previous := chosen;
        chosen := terminal;
      }
    }

    /** Blank the visible screen, whatever is mapped. */
    method ClearScreen()
      requires Shape()
      modifies `entry, mem, termX, termY
      ensures Shape() && View() == ClearVisible(old(View()))
    {
      hide Cleared;
      ghost var v, before := View(), mem[..];
      var oldAddr := entry;
      entry := VIDEO_PAGE;
      BlankScreen();
      termX[visible] := 0;
      termY[visible] := 0;
      entry := oldAddr;
      OnePageChanged(before, mem[..], termX.Length + 1, 0);
      assert before[..PAGE_CELLS] == v.pages[0];
      assert mem[..][PAGE_CELLS * 0..PAGE_CELLS * 1] == mem[..PAGE_CELLS];
    }

    /** Write a space to every cell on screen. */
    method BlankScreen()
      requires mem.Length >= PAGE_CELLS
      modifies mem
      ensures mem[..PAGE_CELLS] == Cleared(Screen(old(mem[..PAGE_CELLS]), 0, 0)).cells
      ensures forall k :: PAGE_CELLS <= k < mem.Length ==> mem[k] == old(mem[k])
    {
      var i := 0;
      while i < ROWS * COLS
        invariant 0 <= i <= ROWS * COLS
        invariant forall k :: 0 <= k < i ==> mem[k] == Cell(SPACE, ATTRIB)
        invariant forall k :: i <= k < mem.Length ==> mem[k] == old(mem[k])
      {
        mem[i] := Cell(SPACE, ATTRIB);
        i := i + 1;
      }
    }

    /** Boot: show the scheduled terminal for the first time, cleared. */
    method ShowFirst()
      requires Shape()
      modifies this, mem, termX, termY, instantiated
      ensures Shape() && keyboardPut == old(keyboardPut)
      ensures var v := old(View());
              View() == ClearVisible(ChangeTo(v, v.chosen, v.scheduled)).(started := v.started[v.scheduled := true])
    {
      hide ChangeTo, ClearVisible;
      ghost var v := View();
      ChangeHandler(chosen, scheduled);
      ClearScreen();
      ghost var w := View();
      instantiated[scheduled] := true;
      assert View() == w.(started := v.started[v.scheduled := true]);
    }

    /** Move to the next terminal and map its screen. */
    method MoveOn()
      requires Shape()
      modifies `scheduled, `entry, `vidEntry
      ensures Shape() && scheduled == (old(scheduled) + 1) % termX.Length < termX.Length
      ensures View() == Reschedule(old(View()), scheduled)
    {
      NextBelow(scheduled, termX.Length);
      scheduled := (scheduled + 1) % termX.Length;
      SetPagingScheduling(visible);
    }

    /** During boot, bring the scheduled terminal up, or end boot on the first one. */
    method BringUp(ghost v: Video)
      requires Shape() && Sized(v) && scheduled < |v.xs| && View() == Reschedule(v, scheduled)
      modifies this, mem, termX, termY, instantiated
      ensures Shape() && keyboardPut == old(keyboardPut) && View() == TickTo(v, old(scheduled))
    {
      hide ChangeTo, ClearVisible;
      if scheduled != 0 && !instantiated[scheduled] {
        ShowFirst();
      } else if !doneInstantiating {
        ChangeHandler(termX.Length - 1, 0);
        ghost var w := View();
        doneInstantiating := true;
        assert View() == w.(booted := true);
      }
    }

    /** The timer's part: move to the next terminal, remap, and during boot bring terminals up. */
    method PitHandler()
      requires Valid()
      modifies this, mem, termX, termY, instantiated
      ensures Valid() && View() == Step(old(View()), Tick)
    {
      hide Reschedule, TickTo, Mapped, DeskOf, DeskStep;
      ghost var v := View();
      StepRefines(v, Tick);
      MoveOn();
      BringUp(v);
    }

    method VidmapPage()
      requires Valid()
      modifies `vidEntry
      ensures Valid() && View() == Step(old(View()), Vidmap)
    {
      if scheduled == visible {
        vidEntry := VIDEO_PAGE;
      } else {
        vidEntry := VIDEO_PAGE + (scheduled + 1);
      }
    }
  }

  lemma NextBelow(r: nat, n: nat)
    requires n > 0
    ensures (r + 1) % n < n
  {
  }

  /** A write inside a page, seen as a write to the page. */
  lemma PageWrite(before: seq<Cell>, after: seq<Cell>, base: nat, at: nat, cell: Cell)
    requires base + PAGE_CELLS <= |before| && at < PAGE_CELLS
    ensures after == before[base + at := cell] ==>
              after[base..base + PAGE_CELLS] == before[base..base + PAGE_CELLS][at := cell]
  {
  }

  /** The mapping in force does not matter to what a write through a given page does. */
  lemma PutFrame(v: Video, p: nat, t: nat, c: char, e: int)
    requires Sized(v) && p < |v.pages| && t < |v.xs| && c != BACKSPACE
    ensures PutOn(v.(entry := e), p, t, c) == PutOn(v, p, t, c).(entry := e)
  {
  }
}
