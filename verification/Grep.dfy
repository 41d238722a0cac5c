/** `grep`: search a file line by line through a buffer that holds 1024 bytes of it at a time. */
module Grep {
  import opened Bytes
  import opened FileSystem

  const DATA_SIZE := 1024

  // ---------------------------------------------------------------- what grep is for

  /** The length of the first line of a text, without its newline. */
  function LineLength(text: seq<char>): (n: nat)
    ensures n <= |text| && forall k :: 0 <= k < n ==> text[k] != NEWLINE
    ensures n < |text| ==> text[n] == NEWLINE
  {
    if text == [] || text[0] == NEWLINE then 0 else 1 + LineLength(text[1..])
  }

  function FirstLine(text: seq<char>): seq<char> {
    text[..LineLength(text)]
  }

  /** The lines of a text; the last one need not end in a newline. */
  function Lines(text: seq<char>): seq<seq<char>>
    decreases |text|
  {
    if text == [] then [] else [FirstLine(text)] + Lines(AfterLine(text))
  }

  /** What follows the first line and its newline. */
  function AfterLine(text: seq<char>): (rest: seq<char>)
    ensures text != [] ==> |rest| < |text|
  {
    var n := LineLength(text);
    if n < |text| then text[n + 1..] else []
  }

  /** Lines written out again, each with its newline. */
  function Unlines(lines: seq<seq<char>>): seq<char> {
    if lines == [] then [] else lines[0] + [NEWLINE] + Unlines(lines[1..])
  }

  /** The lines are the text: none holds a newline, and written out they give it back, its last newline supplied. */
  lemma {:induction false} LinesAreTheText(text: seq<char>)
    ensures forall k :: 0 <= k < |Lines(text)| ==> NEWLINE !in Lines(text)[k]
    ensures Unlines(Lines(text)) == if text == [] || text[|text| - 1] == NEWLINE then text else text + [NEWLINE]
    decreases |text|
  {
    if text != [] {
      LinesAreTheText(AfterLine(text));
      FirstLineSplits(text);
      assert Lines(text) == [FirstLine(text)] + Lines(AfterLine(text));
      hide FirstLine, AfterLine, LineLength, Lines;
      UnlinesFirst(FirstLine(text), Lines(AfterLine(text)));
      NoneHolds(FirstLine(text), Lines(AfterLine(text)));
      hide Unlines;
      Rejoined(text, FirstLine(text), AfterLine(text), Unlines(Lines(AfterLine(text))));
    }
  }

  /** A line put back before what the rest of the text became. */
  lemma Rejoined(text: seq<char>, line: seq<char>, rest: seq<char>, unlined: seq<char>)
    requires text != [] && NEWLINE !in line
    requires if text == line then rest == [] && text[|text| - 1] != NEWLINE else text == line + [NEWLINE] + rest
    requires unlined == if rest == [] || rest[|rest| - 1] == NEWLINE then rest else rest + [NEWLINE]
    ensures line + [NEWLINE] + unlined == if text[|text| - 1] == NEWLINE then text else text + [NEWLINE]
  {
    if rest != [] {
      LastOfSum(line + [NEWLINE], rest);
    }
  }

  lemma NoneHolds(line: seq<char>, lines: seq<seq<char>>)
    requires NEWLINE !in line && forall k :: 0 <= k < |lines| ==> NEWLINE !in lines[k]
    ensures forall k :: 0 <= k < |[line] + lines| ==> NEWLINE !in ([line] + lines)[k]
  {
  }

  lemma UnlinesFirst(line: seq<char>, lines: seq<seq<char>>)
    ensures Unlines([line] + lines) == line + [NEWLINE] + Unlines(lines)
  {
    assert ([line] + lines)[1..] == lines;
  }

  lemma LastOfSum(a: seq<char>, b: seq<char>)
    requires b != []
    ensures (a + b)[|a + b| - 1] == b[|b| - 1]
  {
  }

  /** A first line ended by a newline leaves the rest; one that is not is the whole text. */
  lemma FirstLineSplits(text: seq<char>)
    requires text != []
    ensures NEWLINE !in FirstLine(text)
    ensures if text == FirstLine(text) then AfterLine(text) == [] && text[|text| - 1] != NEWLINE
            else text == FirstLine(text) + [NEWLINE] + AfterLine(text)
  {
    var n := LineLength(text);
    hide LineLength;
    assert n < |text| ==> text[n..] == [NEWLINE] + text[n + 1..];
    assert text == text[..n] + text[n..];
  }

  /** Split at its newlines, a listing gives the names back, in directory order. */
  lemma {:induction false} ListingSplits(entries: seq<Dentry>)
    requires forall d :: d in entries ==> NEWLINE !in NameOf(d)
    ensures Lines(Listing(entries)) == seq(|entries|, i requires 0 <= i < |entries| => NameOf(entries[i]))
    decreases |entries|
  {
    hide Listing, Lines, NameOf, LineLength;
    if entries == [] {
      EmptyListing();
    } else {
      var name, tail := NameOf(entries[0]), entries[1..];
      assert entries == [entries[0]] + tail && entries[0] in entries;
      ListingSplits(tail);
      ListingOfSum([entries[0]], tail);
      ListingOfOne(entries[0]);
      NameThenRest(name, Listing(tail));
    }
  }

  lemma EmptyListing()
    ensures Lines(Listing([])) == []
  {
  }

  lemma NameThenRest(name: seq<char>, rest: seq<char>)
    requires NEWLINE !in name
    ensures Lines(name + [NEWLINE] + rest) == [name] + Lines(rest)
  {
    LineLengthIs(name + [NEWLINE], |name|);
    CompleteLine(name + [NEWLINE], rest);
    hide Lines, LineLength;
    assert FirstLine(name + [NEWLINE]) == name && AfterLine(name + [NEWLINE]) == [];
    assert [] + rest == rest;
  }

  ghost predicate OccursAt(line: seq<char>, s: seq<char>, i: nat) {
    i + |s| <= |line| && line[i..i + |s|] == s
  }

  /** Whether grep selects a line: it contains the search string, which is not empty. */
  ghost predicate Selects(s: seq<char>, line: seq<char>) {
    s != [] && exists i: nat :: OccursAt(line, s, i)
  }

  ghost function Report(fname: seq<char>, s: seq<char>, line: seq<char>): seq<char> {
    if Selects(s, line) then fname + ":" + line + "\n" else []
  }

  /** One report for each line selected, in the order of the file. */
  ghost function Reports(fname: seq<char>, s: seq<char>, lines: seq<seq<char>>): seq<char> {
    if lines == [] then [] else Report(fname, s, lines[0]) + Reports(fname, s, lines[1..])
  }

  ghost predicate Fit(lines: seq<seq<char>>) {
    forall k :: 0 <= k < |lines| ==> |lines[k]| < DATA_SIZE
  }

  // ---------------------------------------------------------------- the helpers grep calls

  /** Compare at most `n` bytes of the buffer at `at` with a search string. */
  method StrNCmp(data: array<char>, at: nat, search: seq<char>, n: nat) returns (r: int)
    requires NUL in search && n <= |CString(search)|
    requires exists e :: at <= e < data.Length && data[e] == NUL
    ensures r == 0 <==> at + n <= data.Length && data[at..at + n] == search[..n]
  {
    if n == 0 {
      return 0;
    }
    var k := 0;
    while data[at + k] == search[k]
      invariant 0 <= k < n && at + k < data.Length
      invariant data[at..at + k] == search[..k] && NUL !in search[..n]
      invariant exists e :: at + k <= e < data.Length && data[e] == NUL
      decreases n - k
    {
      assert search[k] != NUL;
      if k + 1 == n {
        assert data[at..at + n] == search[..n];
        return 0;
      }
      k := k + 1;
    }
    assert at + n <= data.Length ==> data[at..at + n][k] == data[at + k];
    r := data[at + k] as int - search[k] as int;
  }

  /** The forward copy onto an overlapping lower address that keeps the partial line. */
  method StrCpyDown(data: array<char>, src: nat, end: nat)
    requires 0 < src <= end < data.Length && data[end] == NUL
    requires forall k :: src <= k < end ==> data[k] != NUL
    modifies data
    ensures data[..end - src + 1] == old(data[src..end + 1])
    ensures forall k :: end - src < k < data.Length ==> data[k] == old(data[k])
  {
    var k := 0;
    while data[src + k] != NUL
      invariant 0 <= k <= end - src
      invariant forall j :: 0 <= j < k ==> data[j] == old(data[src + j])
      invariant forall j :: k <= j < data.Length ==> data[j] == old(data[j])
      decreases end - src - k
    {
      assert src + k < end;
      data[k] := data[src + k];
      k := k + 1;
    }
    data[k] := NUL;
  }

  /** Scan for the end of the line that starts at `start`. */
  method FindLineEnd(data: array<char>, start: nat, last: nat) returns (end: nat)
    requires start <= last < data.Length
    ensures start <= end <= last && end == start + LineLength(data[start..last])
  {
    end := start;
    while end < last && data[end] != NEWLINE
      invariant start <= end <= last
      invariant forall k :: start <= k < end ==> data[k] != NEWLINE
    {
      end := end + 1;
    }
    LineLengthIs(data[start..last], end - start);
  }

  lemma {:induction false} LineLengthIs(text: seq<char>, n: nat)
    requires n <= |text| && (forall k :: 0 <= k < n ==> text[k] != NEWLINE) && (n < |text| ==> text[n] == NEWLINE)
    ensures LineLength(text) == n
  {
    if n > 0 {
      LineLengthIs(text[1..], n - 1);
    }
  }

  /** Whether the search string is at `check`; a match cannot run past the terminated line. */
  method MatchesAt(data: array<char>, ghost start: nat, ghost end: nat, check: nat, search: seq<char>)
      returns (hit: bool)
    requires start <= check < end < data.Length && data[end] == NUL && NUL !in data[start..end]
    requires NUL in search
    ensures hit <==> CString(search) != [] && OccursAt(data[start..end], CString(search), check - start)
  {
    hit := false;
    ghost var s := CString(search);
    OccurrenceInLine(data[..], start, end, check, s);
    assert check + |s| <= data.Length ==> data[..][check..check + |s|] == data[check..check + |s|];
    assert data[start..end] == data[..][start..end];
    assert data[check] == data[start..end][check - start];
    if search[0] == data[check] {
      var r := StrNCmp(data, check, search, |CString(search)|);
      hit := r == 0;
    } else {
      assert s != [] && check + |s| <= data.Length ==> data[check..check + |s|][0] == data[check];
    }
  }

  /** Terminate the line in the buffer, look for the string at each position, report the line at most once. */
  method SearchLine(data: array<char>, start: nat, end: nat, search: seq<char>, fname: seq<char>)
      returns (out: seq<char>)
    requires start <= end < data.Length && NUL !in data[start..end] && NUL in search
    modifies data
    ensures forall k :: 0 <= k < data.Length ==> data[k] == if k == end then NUL else old(data[k])
    ensures out == Report(fname, CString(search), old(data[start..end]))
  {
    ghost var line, s := data[start..end], CString(search);
    hide CString, Report, OccursAt;
    data[end] := NUL;
    assert data[start..end] == line;
    out := [];
    var check := start;
    while check < end
      invariant start <= check <= end && out == []
      invariant data[start..end] == line
      invariant forall k :: 0 <= k < data.Length ==> data[k] == if k == end then NUL else old(data[k])
      invariant s != [] ==> forall i: nat :: i < check - start ==> !OccursAt(line, s, i)
    {
      var hit := MatchesAt(data, start, end, check, search);
      if hit {
        CutApart(data[..], start, end, end);
        CStringOf(data[start..], line);
        Selected(line, s, check - start, fname);
        out := fname + ":" + CString(data[start..]) + "\n";
        return;
      }
      check := check + 1;
    }
    NotSelected(line, s, fname);
  }

  lemma Selected(line: seq<char>, s: seq<char>, i: nat, fname: seq<char>)
    requires s != [] && OccursAt(line, s, i)
    ensures Report(fname, s, line) == fname + ":" + line + "\n"
  {
  }

  lemma NotSelected(line: seq<char>, s: seq<char>, fname: seq<char>)
    requires s != [] ==> forall i: nat :: i < |line| ==> !OccursAt(line, s, i)
    ensures Report(fname, s, line) == []
  {
    assert s != [] ==> forall i: nat :: OccursAt(line, s, i) ==> i < |line|;
  }

  lemma Subslice(data: seq<char>, start: nat, end: nat, check: nat, n: nat)
    requires start <= check && check + n <= end <= |data|
    ensures data[start..end][check - start..check - start + n] == data[check..check + n]
  {
    var inner, outer := data[start..end][check - start..check - start + n], data[check..check + n];
    assert forall k :: 0 <= k < n ==> inner[k] == outer[k];
  }

  /** A match found in the terminated buffer lies inside the line, and the other way round. */
  lemma OccurrenceInLine(data: seq<char>, start: nat, end: nat, check: nat, s: seq<char>)
    requires start <= check < end < |data| && data[end] == NUL && NUL !in s
    ensures OccursAt(data[start..end], s, check - start) <==> check + |s| <= |data| && data[check..check + |s|] == s
  {
    if check + |s| <= end {
      Subslice(data, start, end, check, |s|);
    } else if check + |s| <= |data| {
      assert data[check..check + |s|][end - check] == NUL;
    }
  }

  lemma CStringOf(buf: seq<char>, s: seq<char>)
    requires s <= buf && NUL !in s && |s| < |buf| && buf[|s|] == NUL
    ensures CString(buf) == s
  {
    CStringReaches(buf, |s|);
  }

  // ---------------------------------------------------------------- the chunked search

  ghost function Expected(fname: seq<char>, s: seq<char>, text: seq<char>): seq<char> {
    Reports(fname, s, Lines(text))
  }

  lemma {:induction false} LineLengthAppend(buffered: seq<char>, rest: seq<char>)
    requires LineLength(buffered) < |buffered|
    ensures LineLength(buffered + rest) == LineLength(buffered)
  {
    if buffered[0] != NEWLINE {
      assert (buffered + rest)[1..] == buffered[1..] + rest;
      LineLengthAppend(buffered[1..], rest);
    }
  }

  lemma SlicesOfSum(a: seq<char>, b: seq<char>, n: nat)
    requires n < |a|
    ensures (a + b)[..n] == a[..n] && (a + b)[n + 1..] == a[n + 1..] + b
  {
  }

  lemma FirstLineOf(buffered: seq<char>, rest: seq<char>)
    requires LineLength(buffered) < |buffered|
    ensures FirstLine(buffered + rest) == FirstLine(buffered)
    ensures AfterLine(buffered + rest) == AfterLine(buffered) + rest
  {
    hide LineLength;
    LineLengthAppend(buffered, rest);
    SlicesOfSum(buffered, rest, LineLength(buffered));
  }

  /** A line complete in the buffer is a line of the file. */
  lemma CompleteLine(buffered: seq<char>, rest: seq<char>)
    requires LineLength(buffered) < |buffered|
    ensures Lines(buffered + rest) == [FirstLine(buffered)] + Lines(AfterLine(buffered) + rest)
  {
    FirstLineOf(buffered, rest);
    hide FirstLine, AfterLine, LineLength;
    assert buffered + rest != [];
  }

  /** Bytes without a newline are the start of one line. */
  lemma PartialLine(buffered: seq<char>, rest: seq<char>)
    requires LineLength(buffered) == |buffered| > 0
    ensures LineLength(buffered + rest) >= |buffered|
    ensures rest == [] ==> Lines(buffered + rest) == [buffered]
  {
    assert rest == [] ==> buffered + rest == buffered;
  }

  lemma ConsLine(line: seq<char>, tail: seq<seq<char>>, fname: seq<char>, s: seq<char>)
    ensures Reports(fname, s, [line] + tail) == Report(fname, s, line) + Reports(fname, s, tail)
    ensures Fit([line] + tail) ==> |line| < DATA_SIZE && Fit(tail)
  {
    var lines := [line] + tail;
    assert lines[1..] == tail && lines[0] == line;
    assert forall k :: 0 <= k < |tail| ==> tail[k] == lines[k + 1];
  }

  /** One complete line off the front of what is left, in terms of the reports still owed. */
  lemma ReportComplete(buffered: seq<char>, rest: seq<char>, fname: seq<char>, s: seq<char>)
    requires Fit(Lines(buffered + rest)) && LineLength(buffered) < |buffered|
    ensures Fit(Lines(AfterLine(buffered) + rest))
    ensures Expected(fname, s, buffered + rest)
         == Report(fname, s, FirstLine(buffered)) + Expected(fname, s, AfterLine(buffered) + rest)
  {
    CompleteLine(buffered, rest);
    ConsLine(FirstLine(buffered), Lines(AfterLine(buffered) + rest), fname, s);
  }

  /** Bytes without a newline fit the buffer; at the end of the file they are its last line. */
  lemma ReportPartial(buffered: seq<char>, rest: seq<char>, fname: seq<char>, s: seq<char>)
    requires Fit(Lines(buffered + rest)) && LineLength(buffered) == |buffered|
    ensures |buffered| < DATA_SIZE
    ensures rest == [] ==> Expected(fname, s, buffered + rest) == Report(fname, s, buffered)
  {
    if |buffered| > 0 {
      PartialLine(buffered, rest);
      assert |Lines(buffered + rest)[0]| < DATA_SIZE;
      assert Reports(fname, s, [buffered]) == Report(fname, s, buffered);
    } else {
      assert rest == [] ==> buffered + rest == [];
    }
  }

  lemma NothingOwed(fname: seq<char>, s: seq<char>)
    ensures Expected(fname, s, []) == [] && Fit(Lines([]))
  {
  }

  /** Reporting the line at the front, which is complete in the buffer or is the last of the file. */
  lemma ReportFront(buffered: seq<char>, rest: seq<char>, fname: seq<char>, s: seq<char>)
    requires Fit(Lines(buffered + rest)) && (LineLength(buffered) == |buffered| ==> rest == [])
    ensures Fit(Lines(AfterLine(buffered) + rest))
    ensures Expected(fname, s, buffered + rest)
         == Report(fname, s, FirstLine(buffered)) + Expected(fname, s, AfterLine(buffered) + rest)
  {
    if LineLength(buffered) < |buffered| {
      ReportComplete(buffered, rest, fname, s);
    } else {
      ReportPartial(buffered, rest, fname, s);
      assert FirstLine(buffered) == buffered && AfterLine(buffered) + rest == [];
      NothingOwed(fname, s);
    }
  }

  lemma CutApart(s: seq<char>, from: nat, at: nat, to: nat)
    requires from <= at <= to <= |s|
    ensures s[from..to][..at - from] == s[from..at] && s[from..][..at - from] == s[from..at]
    ensures at < to ==> s[from..to][at - from + 1..] == s[at + 1..to]
  {
  }

  lemma LineCut(text: seq<char>)
    ensures var n := LineLength(text);
            FirstLine(text) == text[..n] && AfterLine(text) == if n < |text| then text[n + 1..] else []
  {
  }

  /** Search the line at `start` and step over it. */
  method ScanLine(data: array<char>, start: nat, end: nat, last: nat, search: seq<char>, fname: seq<char>)
      returns (found: seq<char>)
    requires start <= end <= last < data.Length && end == start + LineLength(data[start..last])
    requires NUL !in data[start..last] && NUL in search
    modifies data
    ensures forall k :: 0 <= k < data.Length ==> data[k] == if k == end then NUL else old(data[k])
    ensures AfterLine(old(data[start..last])) == if end < last then data[end + 1..last] else []
    ensures found == Report(fname, CString(search), FirstLine(old(data[start..last])))
  {
    hide AfterLine, FirstLine, LineLength, Report, CString;
    ghost var buffered := data[start..last];
    ghost var after := if end < last then data[end + 1..last] else [];
    LineCut(buffered);
    CutApart(data[..], start, end, last);
    found := SearchLine(data, start, end, search, fname);
    assert after == if end < last then data[end + 1..last] else [];
  }

  /** The same, in terms of the reports owed before and after; the line is complete or the last of the file. */
  method ReportLine(data: array<char>, start: nat, end: nat, last: nat, search: seq<char>, fname: seq<char>,
                    ghost rest: seq<char>) returns (found: seq<char>)
    requires start <= end <= last < data.Length && end == start + LineLength(data[start..last])
    requires NUL !in data[start..last] && NUL in search
    requires Fit(Lines(data[start..last] + rest)) && (end == last ==> rest == [])
    modifies data
    ensures forall k :: 0 <= k < data.Length ==> data[k] == if k == end then NUL else old(data[k])
    ensures var after := if end < last then data[end + 1..last] else [];
            && NUL !in after && Fit(Lines(after + rest))
            && Expected(fname, CString(search), old(data[start..last]) + rest)
            == found + Expected(fname, CString(search), after + rest)
  {
    hide Expected, Lines, Fit, FirstLine, Report, CString;
    ghost var buffered := data[start..last];
    assert end < last ==> buffered[end + 1 - start..] == data[end + 1..last];
    ReportFront(buffered, rest, fname, CString(search));
    found := ScanLine(data, start, end, last, search, fname);
  }

  /** Search every line complete in the buffer and move an incomplete last one to the front. */
  method ScanBuffer(data: array<char>, last: nat, cnt: nat, search: seq<char>, fname: seq<char>, ghost rest: seq<char>)
      returns (kept: nat, out: seq<char>)
    requires data.Length == DATA_SIZE + 1 && last <= DATA_SIZE && data[DATA_SIZE] != NEWLINE
    requires NUL !in data[..last] && NUL in search
    requires Fit(Lines(data[..last] + rest))
    requires rest != [] ==> last == DATA_SIZE && cnt > 0
    modifies data
    ensures kept < DATA_SIZE && data[DATA_SIZE] != NEWLINE && NUL !in data[..kept]
    ensures cnt == 0 ==> kept == 0
    ensures Fit(Lines(data[..kept] + rest))
    ensures Expected(fname, CString(search), old(data[..last]) + rest)
         == out + Expected(fname, CString(search), data[..kept] + rest)
  {
    ghost var s := CString(search);
    hide Expected, Lines, Fit, LineLength, AfterLine, FirstLine, Report, CString;
    ghost var owed := Expected(fname, s, data[..last] + rest);
    ghost var whole := owed;
    out := [];
    kept := last;
    var start := 0;
    assert data[0..last] == data[..last];
    while true
      invariant start <= last && data[DATA_SIZE] != NEWLINE && (start > 0 ==> start < last)
      invariant NUL !in data[start..last] && Fit(Lines(data[start..last] + rest))
      invariant owed == Expected(fname, s, data[start..last] + rest)
      invariant whole == out + owed
      decreases last - start
    {
      ghost var buffered := data[start..last];
      var end := FindLineEnd(data, start, last);
      if data[end] != NEWLINE && cnt != 0 && start != 0 {
        CarryOver(data, start, last);
        kept := last - start;
        assert data[..kept] == buffered;
        break;
      }
      if end == last {
        ReportPartial(buffered, rest, fname, s);
      }
      var found := ReportLine(data, start, end, last, search, fname, rest);
      ghost var after := if end < last then data[end + 1..last] else [];
      owed := Expected(fname, s, after + rest);
      Regroup(out, found, owed);
      out := out + found;
      start := end + 1;
      if start >= last {
        kept := 0;
        assert data[..0] == after;
        break;
      }
      assert data[start..last] == after;
    }
  }

  /** Terminate the partial line and copy it down. */
  method CarryOver(data: array<char>, start: nat, last: nat)
    requires 0 < start <= last < data.Length && NUL !in data[start..last]
    requires last == data.Length - 1 || data[data.Length - 1] != NEWLINE
    modifies data
    ensures data[..last - start] == old(data[start..last])
    ensures data[data.Length - 1] != NEWLINE
  {
    ghost var kept := data[start..last];
    assert forall k :: start <= k < last ==> data[k] == kept[k - start] && kept[k - start] in kept;
    data[last] := NUL;
    assert data[start..last + 1] == kept + [NUL];
    StrCpyDown(data, start, last);
    assert data[..last - start] == data[..last - start + 1][..last - start] == kept;
  }

  /** What grep has still to look at: the bytes held in the buffer and the unread rest of the file. */
  ghost function Left(data: array<char>, last: nat, f: OpenFile): seq<char>
    requires f.Valid() && last <= data.Length
    reads data, f
  {
    data[..last] + f.Bytes()[f.position..]
  }

  ghost predicate Held(data: array<char>, last: nat)
    reads data
  {
    && data.Length == DATA_SIZE + 1 && last < DATA_SIZE
    && data[DATA_SIZE] != NEWLINE && NUL !in data[..last]
  }

  /** Fill the buffer and search it. */
  method ReadAndScan(f: OpenFile, data: array<char>, last: nat, search: seq<char>, fname: seq<char>)
      returns (cnt: int, kept: nat, found: seq<char>)
    requires f.Valid() && f.isOpen && NUL !in f.Bytes() && NUL in search && Held(data, last)
    requires Fit(Lines(Left(data, last, f)))
    modifies data, f`position
    ensures f.Valid() && Held(data, kept) && cnt >= 0
    ensures Fit(Lines(Left(data, kept, f)))
    ensures Expected(fname, CString(search), old(Left(data, last, f)))
         == found + Expected(fname, CString(search), Left(data, kept, f))
    ensures f.position == old(f.position) + cnt
    ensures cnt == 0 ==> kept == 0 && f.position == |f.Bytes()|
  {
    hide Expected, Lines, Fit, LineLength;
    ghost var file, held, left := f.Bytes(), data[..last], Left(data, last, f);
    ghost var unread := file[f.position..];
    cnt := f.Read(data, last, DATA_SIZE - last);
    ghost var rest := file[f.position..];
    ghost var chunk := unread[..cnt];
    assert unread == chunk + rest;
    assert data[..last + cnt] == held + chunk;
    assert left == data[..last + cnt] + rest;
    kept, found := ScanBuffer(data, last + cnt, cnt, search, fname, rest);
  }

  /**
   * Search one file. The lines reported are exactly those selected, in order and once each,
   * wherever the chunk boundaries fall. `data` is the uninitialised local buffer.
   */
  method DoOneFile(f: OpenFile?, search: seq<char>, fname: seq<char>, data: array<char>)
      returns (code: int, out: seq<char>)
    requires f != null ==> f.Valid()
    requires NUL in search && data.Length == DATA_SIZE + 1 && data[DATA_SIZE] != NEWLINE
    requires f != null && f.isOpen ==> f.position == 0 && NUL !in f.Bytes() && Fit(Lines(f.Bytes()))
    modifies data
    modifies if f == null then {} else {f}
    ensures f == null ==> code == -1 && out == "file open failed\n"
    ensures f != null && !old(f.isOpen) ==> code == -1 && out == "file read failed\n"
    ensures f != null && old(f.isOpen) ==>
              code == 0 && !f.isOpen && out == Reports(fname, CString(search), Lines(f.Bytes()))
  {
    out := [];
    if f == null {
      return -1, "file open failed\n";
    }
    if !f.isOpen {
      return -1, "file read failed\n";
    }
    hide Lines, Fit, LineLength, Reports;
    ghost var whole := Expected(fname, CString(search), f.Bytes());
    var last: nat := 0;
    assert Left(data, 0, f) == f.Bytes();
    while true
      invariant f.Valid() && f.isOpen && Held(data, last)
      invariant Fit(Lines(Left(data, last, f)))
      invariant whole == out + Expected(fname, CString(search), Left(data, last, f))
      decreases |f.Bytes()| - f.position
    {
      ghost var before := out;
      var cnt, found;
      cnt, last, found := ReadAndScan(f, data, last, search, fname);
      out := out + found;
      Regroup(before, found, Expected(fname, CString(search), Left(data, last, f)));
      if cnt == 0 {
        assert Left(data, last, f) == [];
        NothingOwed(fname, CString(search));
        break;
      }
    }
    code := f.Close();
  }

  lemma Regroup(a: seq<char>, b: seq<char>, c: seq<char>)
    ensures a + (b + c) == (a + b) + c
  {
  }
}
