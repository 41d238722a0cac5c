/** The keyboard handler's buffers, edited in place, and the terminal read that takes a line from them. */
module KeyboardDriver {
  import opened Bytes
  import opened LineEdit

  function Row(a: array2<char>, t: nat): (r: seq<char>)
    requires t < a.Length0
    reads a
  {
    seq(a.Length1, i requires 0 <= i < a.Length1 reads a => a[t, i])
  }

  function Rows(a: array2<char>): (r: seq<seq<char>>)
    reads a
  {
    seq(a.Length0, t requires 0 <= t < a.Length0 reads a => Row(a, t))
  }

  /** `memcpy` into a terminal's save area. */
  method PutRow(a: array2<char>, t: nat, buf: array<char>)
    requires t < a.Length0 && a.Length1 == buf.Length
    modifies a
    ensures Rows(a) == old(Rows(a))[t := buf[..]]
  {
    for i := 0 to buf.Length
      invariant forall u, j :: 0 <= u < a.Length0 && 0 <= j < a.Length1 ==>
                  a[u, j] == if u == t && j < i then buf[j] else old(a[u, j])
    {
      a[t, i] := buf[i];
    }
    assert Row(a, t) == buf[..];
    assert forall u :: 0 <= u < a.Length0 && u != t ==> Row(a, u) == old(Row(a, u));
  }

  /** `memcpy` out of a terminal's save area. */
  method GetRow(a: array2<char>, t: nat, buf: array<char>)
    requires t < a.Length0 && a.Length1 == buf.Length
    modifies buf
    ensures buf[..] == Rows(a)[t]
  {
    for i := 0 to buf.Length
      invariant forall j :: 0 <= j < i ==> buf[j] == a[t, j]
    {
      buf[i] := a[t, i];
    }
    assert buf[..] == Row(a, t);
  }

  class Board {
    const keyboardBuf: array<char>
    const termBuf: array<char>
    const savedKeys: array2<char>
    const savedTerm: array2<char>
    const savedIdx: array<nat>
    const enterFlag: array<bool>
    var bufIdx: nat
    var currentTerminal: nat
    var previous: nat
    var chosen: nat
    var altInfo: bool

    ghost predicate Valid()
      reads this, keyboardBuf, termBuf, savedKeys, savedTerm, savedIdx, enterFlag
    {
      && keyboardBuf != termBuf && savedKeys != savedTerm
      && keyboardBuf.Length == termBuf.Length == savedKeys.Length1 == savedTerm.Length1 == BUFSIZE
      && savedKeys.Length0 == savedTerm.Length0 == savedIdx.Length == enterFlag.Length
      && Sized(View())
    }

    ghost function View(): Keyboard
      reads this, keyboardBuf, termBuf, savedKeys, savedTerm, savedIdx, enterFlag
    {
      Keyboard(keyboardBuf[..], bufIdx, Rows(savedKeys), savedIdx[..], termBuf[..], Rows(savedTerm),
               currentTerminal, previous, chosen, altInfo, enterFlag[..])
    }

    /** An ordinary key, once its scan code has become a character. */
    method CharKey(c: char)
      requires Valid() && c != NEWLINE
      modifies this`bufIdx, keyboardBuf
      ensures Valid() && View() == Step(old(View()), Char(c))
    {
      if bufIdx >= BUFSIZE - 1 {
        return;
      }
      keyboardBuf[bufIdx] := c;
      bufIdx := bufIdx + 1;
    }

    method SpaceHelper()
      requires Valid() && Allowed(View(), Space)
      modifies this`bufIdx, keyboardBuf
      ensures Valid() && View() == Step(old(View()), Space)
    {
      keyboardBuf[bufIdx] := SPACE;
      bufIdx := bufIdx + 1;
    }

    method TabHelper()
      requires Valid()
      modifies this`bufIdx, keyboardBuf
      ensures Valid() && View() == Step(old(View()), Tab)
    {
      for i := 0 to TAB_LENGTH
        invariant Valid() && AppendSpaces(View(), TAB_LENGTH - i) == old(AppendSpaces(View(), TAB_LENGTH))
        invariant |View().saved| == |old(View().saved)|
      {
        if bufIdx >= BUFSIZE - 1 {
          return;
        }
        SpaceHelper();
      }
    }

    method BackspaceHelper()
      requires Valid()
      modifies this`bufIdx, keyboardBuf
      ensures Valid() && View() == Step(old(View()), Backspace)
    {
      if bufIdx > 0 {
        bufIdx := bufIdx - 1;
        keyboardBuf[bufIdx] := NUL;
      }
    }

    /** Store one further newline, then clear the buffer and the chosen terminal's save area. */
    method BufferClear()
      requires keyboardBuf.Length == savedKeys.Length1 == BUFSIZE && bufIdx < BUFSIZE && chosen < savedKeys.Length0
      modifies this`bufIdx, keyboardBuf, savedKeys
      ensures bufIdx == 0 && keyboardBuf[..] == Padded([])
      ensures Rows(savedKeys) == old(Rows(savedKeys))[chosen := Padded([])]
    {
      keyboardBuf[bufIdx] := NEWLINE;
      bufIdx := 0;
      for x := 0 to BUFSIZE
        invariant bufIdx == 0
        invariant forall j :: 0 <= j < x ==> keyboardBuf[j] == NUL
        invariant forall u, j :: 0 <= u < savedKeys.Length0 && 0 <= j < BUFSIZE ==>
                    savedKeys[u, j] == if u == chosen && j < x then NUL else old(savedKeys[u, j])
      {
        keyboardBuf[x] := NUL;
        savedKeys[chosen, x] := NUL;
      }
      assert Row(savedKeys, chosen) == Padded([]);
      assert forall u :: 0 <= u < savedKeys.Length0 && u != chosen ==> Row(savedKeys, u) == old(Row(savedKeys, u));
    }

    method EnterHelper()
      requires Valid() && Allowed(View(), Enter)
      modifies this`bufIdx, keyboardBuf, termBuf, savedKeys, enterFlag
      ensures Valid() && View() == Step(old(View()), Enter)
      ensures enterFlag[..] == old(enterFlag[..])[currentTerminal := true] && bufIdx == 0
    {
      keyboardBuf[bufIdx] := NEWLINE;
      bufIdx := bufIdx + 1;
      enterFlag[currentTerminal] := true;
      for i := 0 to BUFSIZE
        invariant forall j :: 0 <= j < i ==> termBuf[j] == keyboardBuf[j]
        invariant keyboardBuf[..] == old(keyboardBuf[..][bufIdx := NEWLINE])
        invariant bufIdx == old(bufIdx) + 1 && Rows(savedKeys) == old(Rows(savedKeys))
        invariant enterFlag[..] == old(enterFlag[..])[currentTerminal := true]
      {
        termBuf[i] := keyboardBuf[i];
      }
      assert termBuf[..] == keyboardBuf[..];
      BufferClear();
    }

    method AltHelper(down: bool)
      requires Valid()
      modifies this`altInfo
      ensures Valid() && View() == Step(old(View()), Alt(down))
    {
      altInfo := down;
    }

    method FHelper(t: nat)
      requires Valid() && Allowed(View(), FKey(t))
      modifies this, keyboardBuf, termBuf, savedKeys, savedTerm, savedIdx
      ensures Valid() && View() == Step(old(View()), FKey(t))
    {
      previous := chosen;
      chosen := t;
      if altInfo {
        TerminalChangingHandler();
      }
    }

    /** Swap the buffers, the entered line and the index between the save areas and the active ones. */
    method TerminalChangingHandler()
      requires Valid()
      modifies this, keyboardBuf, termBuf, savedKeys, savedTerm, savedIdx
      ensures Valid() && View() == Switch(old(View().(chosen := previous)), old(chosen))
    {
      currentTerminal := chosen;
      KeyboardSwitch(previous, chosen);
      PutRow(savedTerm, previous, termBuf);
      savedIdx[previous] := bufIdx;
      GetRow(savedTerm, chosen, termBuf);
      bufIdx := savedIdx[chosen];
    }

    method KeyboardSwitch(prev: nat, curr: nat)
      requires keyboardBuf.Length == savedKeys.Length1 && prev < savedKeys.Length0 && curr < savedKeys.Length0
      modifies keyboardBuf, savedKeys
      ensures Rows(savedKeys) == old(Rows(savedKeys)[prev := keyboardBuf[..]])
      ensures keyboardBuf[..] == Rows(savedKeys)[curr]
    {
      PutRow(savedKeys, prev, keyboardBuf);
      GetRow(savedKeys, curr, keyboardBuf);
    }

    /** One key: its press, or for Alt its release too. Ctrl+L, Shift and Caps Lock are not among them. */
    method KeyboardHandler(key: Event)
      requires Valid() && Allowed(View(), key) && !key.Halt? && !key.Read?
      modifies this, keyboardBuf, termBuf, savedKeys, savedTerm, savedIdx, enterFlag
      ensures Valid() && View() == Step(old(View()), key)
    {
      hide Sized, Step;
      match key
      case Enter => EnterHelper();
      case Backspace => BackspaceHelper();
      case Space => SpaceHelper();
      case Tab => TabHelper();
      case Alt(down) => AltHelper(down);
      case FKey(t) => FHelper(t);
      case Char(c) => CharKey(c);
    }

    /** The part of `halt` that touches the line: the flag goes down, and the visible buffer is closed. */
    method HaltLine(scheduled: nat, base: bool)
      requires Valid() && scheduled < enterFlag.Length
      modifies termBuf, enterFlag
      ensures Valid() && View() == Step(old(View()), Halt(scheduled, base))
      ensures enterFlag[..] == old(enterFlag[..])[scheduled := false]
    {
      enterFlag[scheduled] := false;
      if !base {
        for i := 0 to BUFSIZE
          invariant forall j :: 0 <= j < i ==> termBuf[j] == NUL
          invariant enterFlag[..] == old(enterFlag[..])[scheduled := false]
        {
          termBuf[i] := NUL;
        }
        assert termBuf[..] == Padded([]);
      }
    }

    /**
     * A read on terminal `scheduled`, from the moment its Enter flag is up. It copies one byte more than asked for,
     * and counts the bytes up to and including the newline.
     */
    method TerminalRead(scheduled: nat, buf: array<char>, nbytes: int) returns (count: int)
      requires Valid() && scheduled < enterFlag.Length && enterFlag[scheduled]
      requires buf.Length > Min(nbytes, BUFSIZE - 1)
      requires buf != termBuf && buf != keyboardBuf
      modifies buf, enterFlag
      ensures Valid() && (count == -1 <==> nbytes <= 0)
      ensures nbytes <= 0 ==> View() == old(View()) && buf[..] == old(buf[..])
      ensures nbytes > 0 ==>
                && View() == Step(old(View()), Read(scheduled))
                && var m := Min(nbytes, BUFSIZE - 1);
                   count == ReportedBytes(termBuf[..], m) && buf[..m + 1] == termBuf[..m + 1]
    {
      var n := nbytes;
      if n >= BUFSIZE {
        n := BUFSIZE - 1;
      }
      if n <= 0 {
        return -1;
      }
      enterFlag[scheduled] := false;
      var newLineCheck := false;
      count := 0;
      for i := 0 to n + 1
        invariant termBuf[..] == old(termBuf[..]) && View() == Step(old(View()), Read(scheduled))
        invariant buf[..i] == termBuf[..i]
        invariant ReportedBytes(termBuf[..], n) ==
                  count + if newLineCheck || i == n + 1 then 0 else ReportedBytes(termBuf[i..], n - i)
      {
        buf[i] := termBuf[i];
        if !newLineCheck {
          count := count + 1;
        }
        if termBuf[i] == NEWLINE {
          newLineCheck := true;
        }
        assert termBuf[i..][1..] == termBuf[i + 1..];
      }
    }
  }
}
