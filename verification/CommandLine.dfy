/** The kernel's own reading of a command: the program's name, and the one argument string it keeps. */
module CommandLine {
  import opened Bytes
  import Numbers

  const FILENAME_LEN := 32

  // ---------------------------------------------------------------- names and arguments

  /** The prefix of a text that fits in `n` characters. */
  function Fitting(text: seq<char>, n: nat): (r: seq<char>)
    ensures |r| == Min(|text|, n) && r <= text
  {
    text[..Min(|text|, n)]
  }

  /** Where the last space is, or -1. */
  function LastSpace(text: seq<char>): (i: int)
    ensures -1 <= i < |text|
    ensures i >= 0 ==> text[i] == SPACE
    ensures forall k :: i < k < |text| ==> text[k] != SPACE
  {
    if text == [] then -1 else if text[|text| - 1] == SPACE then |text| - 1 else LastSpace(text[..|text| - 1])
  }

  lemma LastSpaceIs(text: seq<char>, i: int)
    requires -1 <= i < |text| && (i >= 0 ==> text[i] == SPACE)
    requires forall k :: i < k < |text| ==> text[k] != SPACE
    ensures LastSpace(text) == i
  {
  }

  function FirstSpace(text: seq<char>): (i: int)
    ensures -1 <= i < |text|
    ensures i >= 0 ==> text[i] == SPACE
    ensures forall k :: 0 <= k < (if i < 0 then |text| else i) ==> text[k] != SPACE
  {
    if text == [] then -1 else if text[0] == SPACE then 0
    else if FirstSpace(text[1..]) < 0 then -1 else 1 + FirstSpace(text[1..])
  }

  function After(text: seq<char>, space: int): (r: seq<char>)
    requires -1 <= space < |text|
  {
    if space < 0 then [] else text[space + 1..]
  }

  /** What the kernel keeps: the text after the last space. */
  function Kept(text: seq<char>): seq<char> {
    After(text, LastSpace(text))
  }

  /** It is the text after the first space, as the comment has it, exactly when there is no second space. */
  lemma KeptIsAllIff(text: seq<char>)
    ensures Kept(text) == After(text, FirstSpace(text)) <==> SPACE !in After(text, FirstSpace(text))
  {
    var first, last := FirstSpace(text), LastSpace(text);
    var all := After(text, first);
    if first >= 0 {
      assert last >= first;
      assert last > first ==> all[last - first - 1] == SPACE;
      assert forall k :: 0 <= k < |all| ==> all[k] == text[first + 1 + k];
    } else {
      assert last < 0;
    }
  }

  /** Two words as arguments: the first is lost. */
  lemma SecondArgumentOnly()
    ensures Kept("grep a b") == "b"
  {
    assert "grep a b"[..7] == "grep a ";
  }

  // ---------------------------------------------------------------- the parser

  /** `strlen` as a C string's length. */
  method StrLen(s: array<char>) returns (len: nat)
    requires NUL in s[..]
    ensures len == |CString(s[..])| && len < s.Length && s[len] == NUL
  {
    StringEnds(s[..]);
    len := Numbers.StrLen(s, 0);
    Numbers.SameEnd(s[..], 0, len, |CString(s[..])|);
  }

  lemma {:induction false} StringEnds(s: seq<char>)
    requires NUL in s
    ensures |CString(s)| < |s| && s[0..|CString(s)|] == CString(s) && Numbers.Ended(s, 0)
  {
    if s[0] != NUL {
      StringEnds(s[1..]);
    }
    assert s[|CString(s)|] == NUL;
  }

  /** The name is padded with NULs from its end; past the text's own end the bytes are whatever follows it. */
  ghost predicate Named(name: seq<char>, text: seq<char>) {
    && |name| == FILENAME_LEN
    && var w := |WordOf(text)|;
       && (forall k :: 0 <= k < FILENAME_LEN && k < w ==> name[k] == text[k])
       && (forall k :: w <= k < FILENAME_LEN && (k == w || w < |text|) ==> name[k] == NUL)
  }

  lemma NamedString(name: seq<char>, text: seq<char>)
    requires Named(name, text) && NUL !in text
    ensures CString(name) == Fitting(WordOf(text), FILENAME_LEN)
  {
    var s, f := CString(name), Fitting(WordOf(text), FILENAME_LEN);
    assert forall k :: 0 <= k < |f| ==> name[k] == f[k] && name[k] in text;
    assert forall k :: 0 <= k < |s| ==> s[k] == name[k] && s[k] in s;
    assert |f| < FILENAME_LEN ==> name[|f|] == NUL;
  }

  /** The program's name is the command's first word, as far as 32 characters. */
  method ProgramName(command: array<char>) returns (name: array<char>)
    requires NUL in command[..] && CString(command[..]) != [] && command.Length >= FILENAME_LEN
    ensures fresh(name) && name.Length == FILENAME_LEN
    ensures CString(name[..]) == Fitting(WordOf(CString(command[..])), FILENAME_LEN)
  {
    ghost var text := CString(command[..]);
    name := new char[FILENAME_LEN](_ => NUL);
    var len := StrLen(command);
    assert text == command[..len];
    if command[len - 1] == NEWLINE {
      NameBeforeNewline(command, len, name);
    } else {
      NameToEnd(command, len, name);
    }
    NamedString(name[..], text);
  }

  method NameBeforeNewline(command: array<char>, len: nat, name: array<char>)
    requires 0 < len < command.Length && command[len - 1] == NEWLINE && name != command
    requires name.Length == FILENAME_LEN && forall k :: 0 <= k < FILENAME_LEN ==> name[k] == NUL
    modifies name
    ensures Named(name[..], command[..len])
  {
    ghost var w := |WordOf(command[..len])|;
    var spaceFound := false;
    for i := 0 to FILENAME_LEN
      invariant forall k :: 0 <= k < FILENAME_LEN ==> name[k] == if k < i && k < w then command[k] else NUL
      invariant spaceFound <==> i > w
      invariant w < len
    {
      if i >= len - 1 {
        break;
      } else if !spaceFound {
        if i < len && Separates(command[i]) {
          spaceFound := true;
          name[i] := NUL;
        } else {
          name[i] := command[i];
        }
      } else {
        name[i] := NUL;
      }
    }
  }

  method NameToEnd(command: array<char>, len: nat, name: array<char>)
    requires FILENAME_LEN <= command.Length && 0 < len < command.Length && command[len] == NUL && name != command
    requires name.Length == FILENAME_LEN && forall k :: 0 <= k < FILENAME_LEN ==> name[k] == NUL
    modifies name
    ensures Named(name[..], command[..len])
  {
    ghost var w := |WordOf(command[..len])|;
    var spaceFound := false;
    for i := 0 to FILENAME_LEN
      invariant forall k :: 0 <= k < FILENAME_LEN && (k < i && k < w) ==> name[k] == command[k]
      invariant forall k :: 0 <= k < FILENAME_LEN && (k >= i || k == w || (k > w && w < len)) ==> name[k] == NUL
      invariant spaceFound <==> i > w && w < len
    {
      if !spaceFound {
        if i < len && Separates(command[i]) {
          spaceFound := true;
          name[i] := NUL;
        } else {
          name[i] := command[i];
        }
      } else {
        name[i] := NUL;
      }
    }
  }

  /** A text in a buffer, followed by NULs. */
  function PaddedTo(text: seq<char>, n: nat): (r: seq<char>)
    ensures |r| == n
    ensures forall k :: 0 <= k < n ==> r[k] == if k < |text| then text[k] else NUL
  {
    seq(n, k requires 0 <= k => if k < |text| then text[k] else NUL)
  }

  /** Fill the argument buffer from the command. */
  method ParseArgs(command: array<char>, args: array<char>)
    requires NUL in command[..] && args.Length == BUFSIZE && args != command
    modifies args
    ensures args[..] == PaddedTo(Kept(CString(command[..])), BUFSIZE)
  {
    for i := 0 to BUFSIZE
      invariant forall k :: 0 <= k < i ==> args[k] == NUL
    {
      args[i] := NUL;
    }
    var len := StrLen(command);
    assert command[..len] == CString(command[..]);
    var space := FindSpace(command, len);
    hide CString, LastSpace, Kept, PaddedTo;
    KeptFrom(command[..len]);
    if space != -1 {
      CopyArgs(command, len, space + 1, args);
    }
    assert args[..] == PaddedTo(Kept(command[..len]), BUFSIZE);
  }

  lemma KeptFrom(text: seq<char>)
    ensures Kept(text) == if LastSpace(text) == -1 then [] else text[LastSpace(text) + 1..]
  {
  }

  /** Copy the command from `start` on into the cleared argument buffer, as far as it fits. */
  method CopyArgs(command: array<char>, len: nat, start: nat, args: array<char>)
    requires start <= len <= command.Length && args.Length == BUFSIZE && args != command
    requires forall k :: 0 <= k < BUFSIZE ==> args[k] == NUL
    modifies args
    ensures args[..] == PaddedTo(command[..len][start..], BUFSIZE)
  {
    for i := start to len
      invariant forall k :: 0 <= k < BUFSIZE ==> args[k] == if k < i - start then command[start + k] else NUL
    {
      if i - start < BUFSIZE {
        args[i - start] := command[i];
      }
    }
  }

  /** The index of the last space, which the comment calls the first. */
  method FindSpace(command: array<char>, len: nat) returns (space: int)
    requires len <= command.Length
    ensures space == LastSpace(command[..len])
  {
    space := -1;
    for i := 0 to len
      invariant -1 <= space < i && (space >= 0 ==> command[space] == SPACE)
      invariant forall k :: space < k < i ==> command[k] != SPACE
    {
      if command[i] == SPACE {
        space := i;
      }
    }
    LastSpaceIs(command[..len], space);
  }

  /** `getargs`: hand over the argument buffer, padded with NULs, unless it is empty. */
  method GetArgs(args: array<char>, buf: array<char>, nbytes: int) returns (result: int)
    requires NUL in args[..] && args.Length == BUFSIZE && buf.Length >= nbytes && buf != args
    modifies buf
    ensures result == if CString(args[..]) == [] then -1 else 0
    ensures result == -1 ==> buf[..] == old(buf[..])
    ensures result == 0 && nbytes >= 0 ==> buf[..nbytes] == PaddedTo(args[..], nbytes)
    ensures forall k :: 0 <= k < buf.Length && k >= nbytes ==> buf[k] == old(buf[k])
  {
    var len := StrLen(args);
    if len == 0 {
      return -1;
    }
    var i := 0;
    while i < nbytes
      invariant i == 0 || 0 < i <= nbytes
      invariant forall k :: 0 <= k < i ==> buf[k] == if k < BUFSIZE then args[k] else NUL
      invariant forall k :: 0 <= k < buf.Length && k >= nbytes ==> buf[k] == old(buf[k])
    {
      buf[i] := if i < BUFSIZE then args[i] else NUL;
      i := i + 1;
    }
    return 0;
  }

  lemma PaddedTwice(text: seq<char>, n: nat, m: nat)
    requires NUL !in text && |text| < n && |text| < m
    ensures CString(PaddedTo(PaddedTo(text, n), m)) == text
  {
    var r := PaddedTo(PaddedTo(text, n), m);
    var s := CString(r);
    assert forall k :: 0 <= k < |text| ==> r[k] == text[k] && text[k] in text;
    assert forall k :: 0 <= k < |s| ==> s[k] == r[k] && s[k] in s;
    assert r[|text|] == NUL;
  }

  /**
   * A program asking with room to spare for its argument string gets exactly the text after the command's last space,
   * if that is shorter than the kernel's buffer.
   */
  lemma ArgumentsReach(command: seq<char>, nbytes: nat)
    requires |Kept(CString(command))| < Min(BUFSIZE, nbytes)
    ensures CString(PaddedTo(PaddedTo(Kept(CString(command)), BUFSIZE), nbytes)) == Kept(CString(command))
  {
    PaddedTwice(Kept(CString(command)), BUFSIZE, nbytes);
  }

  // ---------------------------------------------------------------- one buffer for every terminal

  /** The argument buffer after a call of `execute`, whichever terminal it comes from and whether it fails or not. */
  function Parsed(command: seq<char>): seq<char> {
    PaddedTo(Kept(command), BUFSIZE)
  }

  function ArgsAfter(args: seq<char>, commands: seq<seq<char>>): seq<char>
    decreases |commands|
  {
    if commands == [] then args else ArgsAfter(Parsed(commands[0]), commands[1..])
  }

  lemma {:induction false} LastCallCounts(args: seq<char>, commands: seq<seq<char>>)
    requires commands != []
    ensures ArgsAfter(args, commands) == Parsed(commands[|commands| - 1])
    decreases |commands|
  {
    if |commands| > 1 {
      LastCallCounts(Parsed(commands[0]), commands[1..]);
    }
  }

  lemma PaddedString(text: seq<char>, n: nat)
    requires NUL !in text
    ensures CString(PaddedTo(text, n)) == Fitting(text, n)
    ensures PaddedTo(text, n) == PaddedTo(Fitting(text, n), n)
  {
    var r, f := PaddedTo(text, n), Fitting(text, n);
    var s := CString(r);
    assert forall k :: 0 <= k < |f| ==> r[k] == f[k] && f[k] in text;
    assert forall k :: 0 <= k < |s| ==> s[k] == r[k] && s[k] in s;
    assert |f| < n ==> r[|f|] == NUL;
  }

  lemma PaddedAlikeIff(a: seq<char>, b: seq<char>, n: nat)
    requires NUL !in a && NUL !in b
    ensures PaddedTo(a, n) == PaddedTo(b, n) <==> Fitting(a, n) == Fitting(b, n)
  {
    PaddedString(a, n);
    PaddedString(b, n);
  }

  /**
   * The buffer is shared: a program started with a command finds its own argument there exactly when nothing has called
   * `execute` since, or the last call kept the same characters.
   */
  lemma OwnArgumentIff(args: seq<char>, own: seq<char>, later: seq<seq<char>>)
    requires NUL !in own && forall c :: c in later ==> NUL !in c
    ensures ArgsAfter(args, [own] + later) == Parsed(own)
       <==> later == [] || Fitting(Kept(later[|later| - 1]), BUFSIZE) == Fitting(Kept(own), BUFSIZE)
  {
    LastCallCounts(args, [own] + later);
    if later != [] {
      var last := later[|later| - 1];
      assert last in later;
      KeptHasNoNul(own);
      KeptHasNoNul(last);
      PaddedAlikeIff(Kept(last), Kept(own), BUFSIZE);
    }
  }

  lemma KeptHasNoNul(command: seq<char>)
    requires NUL !in command
    ensures NUL !in Kept(command)
  {
  }

  /** A command typed on another terminal, even one that names no file, takes the argument's place. */
  lemma AnotherCallTakesArgument(args: seq<char>)
    ensures CString(ArgsAfter(args, ["cat a", "none b"])) == "b"
  {
    assert "none b"[..5] == "none ";
    assert Kept("none b") == "b";
    LastCallCounts(args, ["cat a", "none b"]);
    PaddedTwice("b", BUFSIZE, BUFSIZE);
    assert PaddedTo(PaddedTo("b", BUFSIZE), BUFSIZE) == PaddedTo("b", BUFSIZE);
  }
}
