/** One 80 by 25 text screen: what printing a character does to it, and the unbounded paper it is a window onto. */
module Screen {
  import opened Bytes

  const COLS := 80
  const ROWS := 25
  const CELLS := 2000
  const PAGE_CELLS := 2048
  const ATTRIB := 0x0a
  const BACKSPACE: char := '\U{08}'
  const RETURN: char := '\r'

  /** A character and its colour, two bytes of video memory. */
  datatype Cell = Cell(ch: char, attr: int)

  /** A 4 KB page of video memory, of which 2000 cells show, and the cursor. */
  datatype Screen = Screen(cells: seq<Cell>, x: int, y: int)

  ghost predicate Ok(s: Screen) {
    |s.cells| == PAGE_CELLS && 0 <= s.x < COLS && 0 <= s.y < ROWS
  }

  /** The rows moved up by one, the last row blank, the cells off screen untouched. */
  function Scrolled(cells: seq<Cell>): (r: seq<Cell>)
    requires |cells| == PAGE_CELLS
    ensures |r| == PAGE_CELLS
  {
    seq(PAGE_CELLS, i requires 0 <= i < PAGE_CELLS =>
      if i < CELLS - COLS then Cell(cells[i + COLS].ch, ATTRIB)
      else if i < CELLS then Cell(NUL, ATTRIB)
      else cells[i])
  }

  function Cleared(s: Screen): (r: Screen)
    requires |s.cells| == PAGE_CELLS
    ensures Ok(r)
  {
    Screen(seq(PAGE_CELLS, i requires 0 <= i < PAGE_CELLS =>
      if i < CELLS then Cell(SPACE, ATTRIB) else s.cells[i]), 0, 0)
  }

  /** `putc` on the screen it prints to, for any character but backspace. */
  function PutChar(s: Screen, c: char): (r: Screen)
    requires Ok(s) && c != BACKSPACE
    ensures Ok(r)
  {
    if c == NEWLINE || c == RETURN then Settle(Screen(s.cells, 0, s.y + 1))
    else
      var cells := s.cells[COLS * s.y + s.x := Cell(c, ATTRIB)];
      if s.x + 1 >= COLS then Settle(Screen(cells, 0, s.y + 1)) else Screen(cells, s.x + 1, s.y)
  }

  /** Scroll if the cursor has gone below the last row. */
  function Settle(s: Screen): (r: Screen)
    requires |s.cells| == PAGE_CELLS && s.x == 0 && 0 <= s.y <= ROWS
    ensures Ok(r)
  {
    if s.y > ROWS - 1 then Screen(Scrolled(s.cells), 0, ROWS - 1) else s
  }

  function Print(s: Screen, text: seq<char>): (r: Screen)
    requires Ok(s) && BACKSPACE !in text
    ensures Ok(r)
  {
    if text == [] then s else PutChar(Print(s, text[..|text| - 1]), text[|text| - 1])
  }

  // ---------------------------------------------------------------- paper

  /** Paper never scrolls: it has as many rows as the text has needed, and at least a screenful. */
  datatype Paper = Paper(rows: seq<seq<char>>, x: nat, y: nat)

  function BlankRow(c: char): (r: seq<char>)
    ensures |r| == COLS
  {
    seq(COLS, _ => c)
  }

  ghost predicate OkPaper(p: Paper) {
    && |p.rows| >= ROWS && p.x < COLS && p.y < |p.rows|
    && (|p.rows| > ROWS ==> p.y == |p.rows| - 1)
    && (forall i :: 0 <= i < |p.rows| ==> |p.rows[i]| == COLS)
  }

  function NewPaper(): (p: Paper)
    ensures OkPaper(p)
  {
    Paper(seq(ROWS, _ => BlankRow(SPACE)), 0, 0)
  }

  /** On to the next row; a row added past the first screenful is blank with NULs. */
  function NextRow(p: Paper): (r: Paper)
    requires OkPaper(p)
    ensures OkPaper(r)
  {
    Paper(if p.y + 1 == |p.rows| then p.rows + [BlankRow(NUL)] else p.rows, 0, p.y + 1)
  }

  function WriteOn(p: Paper, c: char): (r: Paper)
    requires OkPaper(p) && c != BACKSPACE
    ensures OkPaper(r)
  {
    if c == NEWLINE || c == RETURN then NextRow(p)
    else
      var q := p.(rows := p.rows[p.y := p.rows[p.y][p.x := c]]);
      if p.x + 1 == COLS then NextRow(q) else q.(x := p.x + 1)
  }

  /** The whole text laid out on unbounded paper, wrapping as soon as a row is full. */
  function Layout(text: seq<char>): (p: Paper)
    requires BACKSPACE !in text
    ensures OkPaper(p)
  {
    if text == [] then NewPaper() else WriteOn(Layout(text[..|text| - 1]), text[|text| - 1])
  }

  // ---------------------------------------------------------------- window over paper

  function CellAt(cells: seq<Cell>, r: int, j: int): Cell
    requires |cells| == PAGE_CELLS && 0 <= r < ROWS && 0 <= j < COLS
  {
    cells[COLS * r + j]
  }

  /** The cells on screen are the last 25 rows, in one colour. */
  ghost predicate ShowsRows(cells: seq<Cell>, rows: seq<seq<char>>) {
    && |cells| == PAGE_CELLS && |rows| >= ROWS
    && (forall i :: 0 <= i < |rows| ==> |rows[i]| == COLS)
    && forall r, j :: 0 <= r < ROWS && 0 <= j < COLS ==>
         CellAt(cells, r, j) == Cell(rows[|rows| - ROWS + r][j], ATTRIB)
  }

  /** The screen is the end of the paper, and its cursor the writing position. */
  ghost predicate Shows(s: Screen, p: Paper) {
    && Ok(s) && OkPaper(p) && ShowsRows(s.cells, p.rows)
    && s.x == p.x && s.y == p.y - (|p.rows| - ROWS)
  }

  lemma ScrollShows(cells: seq<Cell>, rows: seq<seq<char>>)
    requires ShowsRows(cells, rows)
    ensures ShowsRows(Scrolled(cells), rows + [BlankRow(NUL)])
  {
    var rows' := rows + [BlankRow(NUL)];
    forall r, j | 0 <= r < ROWS && 0 <= j < COLS
      ensures CellAt(Scrolled(cells), r, j) == Cell(rows'[|rows'| - ROWS + r][j], ATTRIB)
    {
      if r < ROWS - 1 {
        assert CellAt(cells, r + 1, j) == Cell(rows[|rows| - ROWS + (r + 1)][j], ATTRIB);
      }
    }
  }

  lemma WriteShows(cells: seq<Cell>, rows: seq<seq<char>>, y: nat, x: nat, c: char)
    requires ShowsRows(cells, rows) && y < ROWS && x < COLS
    ensures var i := |rows| - ROWS + y;
            ShowsRows(cells[COLS * y + x := Cell(c, ATTRIB)], rows[i := rows[i][x := c]])
  {
    var i := |rows| - ROWS + y;
    var cells', rows' := cells[COLS * y + x := Cell(c, ATTRIB)], rows[i := rows[i][x := c]];
    forall r, j | 0 <= r < ROWS && 0 <= j < COLS
      ensures CellAt(cells', r, j) == Cell(rows'[|rows'| - ROWS + r][j], ATTRIB)
    {
      assert COLS * r + j == COLS * y + x <==> r == y && j == x;
      assert CellAt(cells, r, j) == Cell(rows[|rows| - ROWS + r][j], ATTRIB);
    }
  }

  lemma NextRowShows(s: Screen, p: Paper)
    requires Shows(s, p)
    ensures Shows(Settle(Screen(s.cells, 0, s.y + 1)), NextRow(p))
  {
    if p.y + 1 == |p.rows| {
      ScrollShows(s.cells, p.rows);
    }
  }

  lemma PutCharShows(s: Screen, p: Paper, c: char)
    requires Shows(s, p) && c != BACKSPACE
    ensures Shows(PutChar(s, c), WriteOn(p, c))
  {
    if c == NEWLINE || c == RETURN {
      NextRowShows(s, p);
    } else {
      WriteShows(s.cells, p.rows, s.y, s.x, c);
      if s.x + 1 >= COLS {
        NextRowShows(Screen(s.cells[COLS * s.y + s.x := Cell(c, ATTRIB)], s.x, s.y),
                     p.(rows := p.rows[p.y := p.rows[p.y][p.x := c]]));
      }
    }
  }

  /** Printing and clearing leave the part of the page that is never on screen as it was. */
  lemma OffScreenKept(s: Screen, c: char, i: nat)
    requires Ok(s) && c != BACKSPACE && 2000 <= i < PAGE_CELLS
    ensures PutChar(s, c).cells[i] == s.cells[i] && Cleared(s).cells[i] == s.cells[i]
  {
  }

  /** Whatever is printed on a cleared screen, it shows the end of the text laid out on unbounded paper. */
  lemma {:induction false} WindowOverPaper(s: Screen, text: seq<char>)
    requires |s.cells| == PAGE_CELLS && BACKSPACE !in text
    ensures Shows(Print(Cleared(s), text), Layout(text))
  {
    if text == [] {
    } else {
      WindowOverPaper(s, text[..|text| - 1]);
      PutCharShows(Print(Cleared(s), text[..|text| - 1]), Layout(text[..|text| - 1]), text[|text| - 1]);
    }
  }

  /** Character `k` of the paper, read row by row. */
  function ReadingOrder(p: Paper, k: nat): char
    requires OkPaper(p) && k < COLS * |p.rows|
  {
    p.rows[k / COLS][k % COLS]
  }

  ghost predicate Holds(p: Paper, text: seq<char>) {
    && OkPaper(p) && COLS * p.y + p.x == |text|
    && forall k :: 0 <= k < |text| ==> ReadingOrder(p, k) == text[k]
  }

  lemma WriteHolds(p: Paper, text: seq<char>, c: char)
    requires Holds(p, text) && c != NEWLINE && c != RETURN && c != BACKSPACE
    ensures Holds(WriteOn(p, c), text + [c])
  {
    var q := WriteOn(p, c);
    assert |text| / COLS == p.y && |text| % COLS == p.x;
    forall k | 0 <= k < |text|
      ensures ReadingOrder(q, k) == text[k]
    {
      assert ReadingOrder(p, k) == text[k];
      assert k / COLS == p.y && k % COLS == p.x ==> k == |text|;
    }
  }

  /** Text with no line break fills the paper row by row, 80 characters to a row. */
  lemma {:induction false} PlainTextLayout(text: seq<char>)
    requires NEWLINE !in text && RETURN !in text && BACKSPACE !in text
    ensures Holds(Layout(text), text)
  {
    if text != [] {
      var n := |text| - 1;
      PlainTextLayout(text[..n]);
      assert text[n] in text;
      WriteHolds(Layout(text[..n]), text[..n], text[n]);
      assert text == text[..n] + [text[n]];
    }
  }
}
