/** Splitting a command into an argument vector, and joining the vector back into a line. */
module Arguments {
  import opened Bytes

  const MAX_COMMAND := 1023

  // ---------------------------------------------------------------- words

  /** What follows the first word and the one character that ends it. */
  function Rest(s: seq<char>): (r: seq<char>)
    ensures s != [] ==> |r| < |s|
  {
    if |WordOf(s)| == |s| then [] else s[|WordOf(s)| + 1..]
  }

  function SkipSpaces(s: seq<char>): (r: seq<char>)
    ensures |r| <= |s|
    ensures r != [] ==> r[0] != SPACE
    ensures s != [] && s[0] != SPACE ==> r == s
  {
    if s != [] && s[0] == SPACE then SkipSpaces(s[1..]) else s
  }

  /** The words up to the end, or up to a newline that stands where a word would start. */
  function Tokens(s: seq<char>): seq<seq<char>>
    decreases |s|
  {
    var t := SkipSpaces(s);
    if t == [] || t[0] == NEWLINE then [] else [WordOf(t)] + Tokens(Rest(t))
  }

  function Argv(command: seq<char>): (argv: seq<seq<char>>)
    ensures |argv| > 0
  {
    [['.', '/'] + WordOf(command)] + Tokens(Rest(command))
  }

  /** The words with one space between each and the next. */
  function Join(words: seq<seq<char>>): seq<char> {
    if words == [] then [] else if |words| == 1 then words[0] else words[0] + [SPACE] + Join(words[1..])
  }

  // ---------------------------------------------------------------- what tokenising and joining give

  /** The text without the spaces that lead, trail or repeat; `started` once a character has been kept. */
  function Collapse(s: seq<char>, started: bool): seq<char> {
    if s == [] then []
    else if s[0] != SPACE then [s[0]] + Collapse(s[1..], true)
    else if started && |s| > 1 && s[1] != SPACE then [SPACE] + Collapse(s[1..], true)
    else Collapse(s[1..], started)
  }

  function AfterStart(words: seq<seq<char>>): seq<char> {
    if words == [] then [] else [SPACE] + Join(words)
  }

  lemma {:induction false} WordKept(s: seq<char>)
    requires NEWLINE !in s && s != [] && s[0] != SPACE
    ensures forall started :: Collapse(s, started) == WordOf(s) + Collapse(s[|WordOf(s)|..], true)
    decreases |s|
  {
    if |s| > 1 && s[1] != SPACE {
      WordKept(s[1..]);
      assert s[1..][|WordOf(s[1..])|..] == s[|WordOf(s)|..];
    } else {
      assert WordOf(s) == [s[0]] by { assert |s| > 1 ==> WordOf(s[1..]) == []; }
    }
  }

  lemma {:induction false} TokensJoined(s: seq<char>)
    requires NEWLINE !in s
    ensures Join(Tokens(s)) == Collapse(s, false)
    ensures s == [] || s[0] == SPACE ==> AfterStart(Tokens(s)) == Collapse(s, true)
    decreases |s|
  {
    if s != [] && s[0] == SPACE {
      TokensJoined(s[1..]);
      SpaceFirst(s);
    } else if s != [] {
      TokensJoined(s[|WordOf(s)|..]);
      WordFirst(s);
    }
  }

  lemma SpaceFirst(s: seq<char>)
    requires NEWLINE !in s && s != [] && s[0] == SPACE
    ensures Tokens(s) == Tokens(s[1..])
    ensures Collapse(s, false) == Collapse(s[1..], false)
    ensures Collapse(s, true) ==
            if |s| > 1 && s[1] != SPACE then [SPACE] + Collapse(s[1..], false) else Collapse(s[1..], true)
    ensures |s| > 1 && s[1] != SPACE ==> Tokens(s) != []
  {
    if |s| > 1 && s[1] != SPACE {
      WordKept(s[1..]);
      assert s[1] in s;
    }
  }

  lemma WordFirst(s: seq<char>)
    requires NEWLINE !in s && s != [] && s[0] != SPACE
    ensures var w, a := WordOf(s), s[|WordOf(s)|..];
            && 0 < |w| && (a == [] || a[0] == SPACE)
            && Join(Tokens(s)) == w + AfterStart(Tokens(a)) && Collapse(s, false) == w + Collapse(a, true)
  {
    hide Collapse;
    var w, a := WordOf(s), s[|WordOf(s)|..];
    WordKept(s);
    assert s[0] in s;
    assert Tokens(s) == [w] + Tokens(Rest(s));
    if a != [] {
      assert a[0] in s;
      assert a[1..] == Rest(s) && SkipSpaces(a) == SkipSpaces(a[1..]);
    }
    JoinFirst(Tokens(s));
    assert Tokens(s)[1..] == Tokens(a);
  }

  /** Tokenised and joined again, a command without newlines is what follows its first word, tidied. */
  lemma ArgumentsAreTheRest(command: seq<char>)
    requires NEWLINE !in command
    ensures Join(Argv(command)[1..]) == Collapse(Rest(command), false)
  {
    assert Argv(command)[1..] == Tokens(Rest(command));
    TokensJoined(Rest(command));
  }

  /** No space leads, trails or follows another. */
  ghost predicate Tidy(s: seq<char>) {
    && (s != [] ==> s[0] != SPACE && s[|s| - 1] != SPACE)
    && forall k :: 0 < k < |s| ==> s[k - 1] != SPACE || s[k] != SPACE
  }

  function WithoutSpaces(s: seq<char>): seq<char> {
    if s == [] then [] else (if s[0] == SPACE then [] else [s[0]]) + WithoutSpaces(s[1..])
  }

  /** Collapsing leaves a tidy text and loses nothing but spaces. */
  lemma {:induction false} CollapseTidies(s: seq<char>)
    ensures Tidy(Collapse(s, false)) && WithoutSpaces(Collapse(s, false)) == WithoutSpaces(s)
    ensures s == [] || s[0] != SPACE ==> Collapse(s, true) == Collapse(s, false)
    ensures OnceStarted(Collapse(s, true)) && WithoutSpaces(Collapse(s, true)) == WithoutSpaces(s)
    decreases |s|
  {
    if s != [] {
      CollapseTidies(s[1..]);
      PutBefore(s[0], Collapse(s[1..], true));
      PutBefore(SPACE, Collapse(s[1..], true));
    }
  }

  /** Tidy but for one space that may lead. */
  ghost predicate OnceStarted(s: seq<char>) {
    Tidy(if s != [] && s[0] == SPACE then s[1..] else s) && s != [SPACE]
  }

  lemma PutBefore(c: char, s: seq<char>)
    requires OnceStarted(s)
    ensures WithoutSpaces([c] + s) == (if c == SPACE then [] else [c]) + WithoutSpaces(s)
    ensures c != SPACE ==> Tidy([c] + s)
    ensures c == SPACE && s != [] && s[0] != SPACE ==> OnceStarted([c] + s)
  {
    assert ([c] + s)[1..] == s;
  }

  /** A tidy text is left as it is. */
  lemma {:induction false} TidyUnchanged(s: seq<char>, started: bool)
    requires s != [] ==> (started || s[0] != SPACE) && s[|s| - 1] != SPACE
    requires forall k :: 0 < k < |s| ==> s[k - 1] != SPACE || s[k] != SPACE
    ensures Collapse(s, started) == s
    decreases |s|
  {
    if s != [] {
      TidyUnchanged(s[1..], true);
    }
  }

  /** A space or a newline after a word ends it; spaces before a word are skipped; a newline there ends the command. */
  lemma TokenLaws(w: seq<char>, rest: seq<char>)
    requires w != [] && ' ' !in w && '\n' !in w
    ensures Tokens([]) == [] && Tokens([' '] + rest) == Tokens(rest) && Tokens(['\n'] + rest) == []
    ensures Tokens(w) == [w]
    ensures Tokens(w + ([' '] + rest)) == [w] + Tokens(rest) && Tokens(w + (['\n'] + rest)) == [w] + Tokens(rest)
  {
    SeparatorFirst(' ', rest);
    SeparatorFirst('\n', rest);
    WordEnded(w, []);
    assert w + [] == w;
    WordEnded(w, [' '] + rest);
    WordEnded(w, ['\n'] + rest);
  }

  lemma SeparatorFirst(c: char, rest: seq<char>)
    requires Separates(c)
    ensures ([c] + rest)[1..] == rest && Tokens([c] + rest) == if c == '\n' then [] else Tokens(rest)
  {
    assert ([c] + rest)[1..] == rest;
  }

  lemma WordEnded(w: seq<char>, tail: seq<char>)
    requires w != [] && ' ' !in w && '\n' !in w && (tail != [] ==> Separates(tail[0]))
    ensures Tokens(w + tail) == [w] + Tokens(if tail == [] then [] else tail[1..])
  {
    assert forall k :: 0 <= k < |w| ==> w[k] in w;
    WordAlone(w, tail);
    FirstToken(w + tail);
  }

  /** The vector starts with the program: `./` and the first word, which may be empty. */
  lemma ArgvLaws(w: seq<char>, rest: seq<char>)
    requires ' ' !in w && '\n' !in w
    ensures Argv(w) == ["./" + w]
    ensures Argv(w + ([' '] + rest)) == ["./" + w] + Tokens(rest)
    ensures Argv(w + (['\n'] + rest)) == ["./" + w] + Tokens(rest)
  {
    assert forall k :: 0 <= k < |w| ==> w[k] in w;
    assert ([' '] + rest)[1..] == rest && (['\n'] + rest)[1..] == rest;
    WordAlone(w, []);
    assert w + [] == w;
    WordAlone(w, [' '] + rest);
    WordAlone(w, ['\n'] + rest);
  }

  ghost predicate ProperWord(w: seq<char>) {
    w != [] && forall k :: 0 <= k < |w| ==> !Separates(w[k])
  }

  /** The joined line splits back into the very words it was made of. */
  lemma {:induction false} JoinedSplitsBack(words: seq<seq<char>>)
    requires forall i :: 0 <= i < |words| ==> ProperWord(words[i])
    ensures Tokens(Join(words)) == words
    decreases |words|
  {
    if words != [] {
      JoinedSplitsBack(words[1..]);
      assert ProperWord(words[0]);
      JoinFirst(words);
      SplitFirst(words[0], words[1..]);
    }
  }

  lemma SplitFirst(w: seq<char>, words: seq<seq<char>>)
    requires ProperWord(w)
    ensures Tokens(w + AfterStart(words)) == [w] + Tokens(Join(words))
  {
    hide Join;
    WordAlone(w, AfterStart(words));
    assert Tokens([]) == [];
    assert words == [] ==> Join(words) == [] by { JoinNone(); }
    assert words != [] ==> AfterStart(words)[1..] == Join(words);
    FirstToken(w + AfterStart(words));
  }

  lemma JoinNone()
    ensures Join([]) == []
  {
  }

  lemma FirstToken(s: seq<char>)
    requires s != [] && !Separates(s[0])
    ensures Tokens(s) == [WordOf(s)] + Tokens(Rest(s))
  {
  }

  lemma {:induction false} WordAlone(w: seq<char>, tail: seq<char>)
    requires (forall k :: 0 <= k < |w| ==> !Separates(w[k])) && (tail != [] ==> Separates(tail[0]))
    ensures WordOf(w + tail) == w
    ensures Rest(w + tail) == if tail == [] then [] else tail[1..]
    decreases |w|
  {
    if w != [] {
      assert (w + tail)[1..] == w[1..] + tail;
      WordAlone(w[1..], tail);
    } else {
      assert w + tail == tail;
    }
  }

  // ---------------------------------------------------------------- the tokeniser

  /** The C string at `at`. */
  ghost predicate StringAt(buf: seq<char>, at: nat, s: seq<char>) {
    at + |s| < |buf| && buf[at..at + |s|] == s && buf[at + |s|] == NUL
  }

  /** `ece391_strcpy`, terminator and all. */
  method StrCpy(dest: array<char>, at: nat, src: seq<char>)
    requires at + |src| < dest.Length
    modifies dest
    ensures StringAt(dest[..], at, src)
    ensures forall k :: 0 <= k < dest.Length && !(at <= k <= at + |src|) ==> dest[k] == old(dest[k])
  {
    for i := 0 to |src|
      invariant dest[at..at + i] == src[..i]
      invariant forall k :: 0 <= k < dest.Length && !(at <= k < at + i) ==> dest[k] == old(dest[k])
    {
      dest[at + i] := src[i];
    }
    dest[at + |src|] := NUL;
  }

  /** What is left of a string further on. */
  lemma StringTail(buf: seq<char>, at: nat, s: seq<char>, k: nat)
    requires StringAt(buf, at, s) && k <= |s|
    ensures StringAt(buf, at + k, s[k..])
    ensures buf[at + k] == if k < |s| then s[k] else NUL
  {
    assert buf[at + k..at + |s|] == buf[at..at + |s|][k..];
  }

  /** Move to the end of the word. */
  method SkipWord(buf: array<char>, start: nat, ghost s: seq<char>) returns (scan: nat)
    requires StringAt(buf[..], start, s) && NUL !in s
    ensures scan == start + |WordOf(s)| && StringAt(buf[..], scan, s[|WordOf(s)|..])
  {
    hide StringAt, WordOf;
    scan := start;
    StringTail(buf[..], start, s, 0);
    while buf[scan] != NUL && buf[scan] != SPACE && buf[scan] != NEWLINE
      invariant start <= scan <= start + |s| && scan < buf.Length
      invariant buf[scan] == if scan - start < |s| then s[scan - start] else NUL
      invariant forall j :: 0 <= j < scan - start ==> !Separates(s[j])
      decreases |s| - (scan - start)
    {
      scan := scan + 1;
      StringTail(buf[..], start, s, scan - start);
    }
    assert scan - start < |s| ==> s[scan - start] in s;
    WordEnds(s, scan - start);
    StringTail(buf[..], start, s, scan - start);
  }

  lemma WordEnds(s: seq<char>, k: nat)
    requires k <= |s| && (forall j :: 0 <= j < k ==> !Separates(s[j])) && (k < |s| ==> Separates(s[k]))
    ensures |WordOf(s)| == k
  {
    assert forall j :: 0 <= j < |WordOf(s)| ==> s[j] == WordOf(s)[j];
  }

  method SkipBlanks(buf: array<char>, start: nat, ghost s: seq<char>) returns (scan: nat)
    requires StringAt(buf[..], start, s)
    ensures scan == start + (|s| - |SkipSpaces(s)|) && StringAt(buf[..], scan, SkipSpaces(s))
  {
    hide StringAt, SkipSpaces;
    scan := start;
    StringTail(buf[..], start, s, 0);
    assert s[0..] == s;
    while buf[scan] == SPACE
      invariant start <= scan <= start + |s| && scan < buf.Length
      invariant buf[scan] == if scan - start < |s| then s[scan - start] else NUL
      invariant SkipSpaces(s[scan - start..]) == SkipSpaces(s)
      decreases |s| - (scan - start)
    {
      SkipOneOn(s, scan - start);
      scan := scan + 1;
      StringTail(buf[..], start, s, scan - start);
    }
    SkipDone(s, scan - start);
    StringTail(buf[..], start, s, scan - start);
  }

  lemma SkipDone(s: seq<char>, k: nat)
    requires k <= |s| && (k < |s| ==> s[k] != SPACE) && SkipSpaces(s[k..]) == SkipSpaces(s)
    ensures SkipSpaces(s) == s[k..]
  {
  }

  lemma SkipOneOn(s: seq<char>, k: nat)
    requires k < |s| && s[k] == SPACE
    ensures SkipSpaces(s[k..]) == SkipSpaces(s[k + 1..])
  {
    assert s[k..][1..] == s[k + 1..];
  }

  /** The first arguments of a vector are in place, none of them reaching past `scan`. */
  ghost predicate Placed(buf: seq<char>, args: seq<nat>, n: nat, argv: seq<seq<char>>, scan: nat) {
    n <= |argv| && n <= |args| && forall i :: 0 <= i < n ==> PlacedAt(buf, args[i], argv[i], scan)
  }

  ghost predicate PlacedAt(buf: seq<char>, at: nat, word: seq<char>, scan: nat) {
    at + |word| <= scan && StringAt(buf, at, word)
  }

  lemma StillPlaced(buf: seq<char>, args: seq<nat>, n: nat, argv: seq<seq<char>>, scan: nat, further: nat)
    requires Placed(buf, args, n, argv, scan) && scan <= further
    ensures Placed(buf, args, n, argv, further)
  {
    assert forall i :: 0 <= i < n ==>
             PlacedAt(buf, args[i], argv[i], scan) ==> PlacedAt(buf, args[i], argv[i], further);
  }

  lemma StillPlacedCut(was: seq<char>, args: seq<nat>, n: nat, argv: seq<seq<char>>, scan: nat)
    requires Placed(was, args, n, argv, scan) && scan < |was|
    ensures Placed(was[scan := NUL], args, n, argv, scan)
  {
    forall i | 0 <= i < n
      ensures PlacedAt(was[scan := NUL], args[i], argv[i], scan)
    {
      assert PlacedAt(was, args[i], argv[i], scan);
      assert was[scan := NUL][args[i]..args[i] + |argv[i]|] == was[args[i]..args[i] + |argv[i]|];
    }
  }

  /** A NUL stored at or past `scan` disturbs nothing placed before, and ends one word more. */
  lemma OneMorePlaced(buf: seq<char>, args: seq<nat>, n: nat, argv: seq<seq<char>>, scan: nat, end: nat)
    requires Placed(buf, args, n, argv, scan) && n < |argv| && n < |args|
    requires scan <= args[n] && end == args[n] + |argv[n]| && end < |buf| && buf[args[n]..end] == argv[n]
    ensures Placed(buf[end := NUL], args, n + 1, argv, end)
  {
    forall i | 0 <= i < n + 1
      ensures PlacedAt(buf[end := NUL], args[i], argv[i], end)
    {
      assert i < n ==> PlacedAt(buf, args[i], argv[i], scan);
      assert buf[end := NUL][args[i]..args[i] + |argv[i]|] == buf[args[i]..args[i] + |argv[i]|];
    }
  }

  /** End the word that stops at `end`, and step past the character that ended it. */
  method EndWord(buf: array<char>, start: nat, end: nat, ghost s: seq<char>) returns (scan: nat)
    requires StringAt(buf[..], start, s) && NUL !in s && end == start + |WordOf(s)|
    modifies buf
    ensures buf[..] == old(buf[..])[end := NUL]
    ensures scan == if WordOf(s) == s then end else end + 1
    ensures StringAt(buf[..], scan, Rest(s))
  {
    RestIs(s);
    StringTail(buf[..], start, s, |WordOf(s)|);
    hide WordOf, Rest, StringAt;
    scan := end;
    assert |WordOf(s)| < |s| ==> s[|WordOf(s)|] in s;
    if buf[scan] != NUL {
      CutTail(buf[..], start, s, |WordOf(s)|);
      buf[scan] := NUL;
      scan := scan + 1;
    } else {
      assert buf[..][scan := NUL] == buf[..];
    }
  }

  lemma RestIs(s: seq<char>)
    ensures Rest(s) == if |WordOf(s)| < |s| then s[|WordOf(s)| + 1..] else s[|WordOf(s)|..]
    ensures WordOf(s) == s <==> |WordOf(s)| == |s|
  {
  }

  lemma CutTail(buf: seq<char>, start: nat, s: seq<char>, k: nat)
    requires StringAt(buf, start, s) && k < |s|
    ensures StringAt(buf[start + k := NUL], start + k + 1, s[k + 1..])
  {
    StringTail(buf, start, s, k + 1);
    assert buf[start + k := NUL][start + k + 1..start + |s|] == buf[start + k + 1..start + |s|];
  }

  /**
   * Split a command of at most 1023 characters in place: each word ends at a NUL stored over the character after it,
   * and `args` says where each starts. There are at most 513, so the vector and its closing null fit.
   */
  method Tokenise(command: seq<char>, buf: array<char>, args: array<nat>) returns (result: int, n: nat)
    requires NUL !in command && buf.Length == 1026 && args.Length == 1024
    modifies buf, args
    ensures result == -1 <==> |command| > MAX_COMMAND
    ensures |command| <= MAX_COMMAND ==>
              && n == |Argv(command)| <= 513
              && Placed(buf[..], args[..], n, Argv(command), buf.Length)
  {
    if MAX_COMMAND < |command| {
      return -1, 0;
    }
    result := 0;
    ghost var argv := Argv(command);
    buf[0], buf[1] := '.', '/';
    StrCpy(buf, 2, command);
    var scan := SkipWord(buf, 2, command);
    args[0] := 0;
    n := 1;
    var more := buf[scan] != NUL;
    FirstWord(buf[..], args[..], command, scan);
    scan := EndWord(buf, 2, scan, command);
    StillPlaced(buf[..], args[..], 1, argv, 2 + |WordOf(command)|, scan);
    if more {
      assert argv[1..] == Tokens(Rest(command));
      n, scan := TokeniseRest(buf, args, scan, Rest(command), argv);
    }
    StillPlaced(buf[..], args[..], n, argv, scan, buf.Length);
  }

  /** The words after the first. */
  method TokeniseRest(buf: array<char>, args: array<nat>, start: nat, ghost rest: seq<char>, ghost argv: seq<seq<char>>)
    returns (n: nat, scan: nat)
    requires buf.Length == 1026 && args.Length == 1024
    requires StringAt(buf[..], start, rest) && start + |rest| < buf.Length && NUL !in rest && start > 2
    requires argv != [] && argv[1..] == Tokens(rest) && Placed(buf[..], args[..], 1, argv, start)
    modifies buf, args
    ensures n == |argv| <= 513 && scan < buf.Length && Placed(buf[..], args[..], n, argv, scan)
  {
    hide StringAt, Placed, Tokens, SkipSpaces, WordOf, Rest, PlacedAt;
    n, scan := 1, start;
    ghost var s := rest;
    while true
      invariant StringAt(buf[..], scan, s) && NUL !in s && scan + |s| < buf.Length
      invariant 0 < n <= |argv| && argv[n..] == Tokens(s) && Placed(buf[..], args[..], n, argv, scan)
      invariant 2 * n <= if s == [] then scan + 1 else scan
      decreases |s|
    {
      ghost var before := scan;
      scan := SkipBlanks(buf, scan, s);
      StillPlaced(buf[..], args[..], n, argv, before, scan);
      NextToken(s);
      s := SkipSpaces(s);
      StringTail(buf[..], scan, s, 0);
      if buf[scan] == NUL || buf[scan] == NEWLINE {
        StillPlacedCut(buf[..], args[..], n, argv, scan);
        buf[scan] := NUL;
        return;
      }
      assert argv[n] == WordOf(s) && argv[n + 1..] == Tokens(Rest(s));
      ghost var were := args[..];
      args[n] := scan;
      var end := SkipWord(buf, scan, s);
      PlaceWord(buf[..], were, n, argv, scan, s);
      n := n + 1;
      scan := EndWord(buf, scan, end, s);
      StillPlaced(buf[..], args[..], n, argv, end, scan);
      s := Rest(s);
    }
  }

  lemma {:induction false} SkippedOnly(s: seq<char>)
    ensures SkipSpaces(s) == s[|s| - |SkipSpaces(s)|..]
    decreases |s|
  {
    if s != [] && s[0] == SPACE {
      SkippedOnly(s[1..]);
    }
  }

  lemma NextToken(s: seq<char>)
    requires NUL !in s
    ensures var t := SkipSpaces(s);
            && NUL !in t && NUL !in Rest(t)
            && if t == [] || t[0] == NEWLINE then Tokens(s) == []
               else
                 && Tokens(s) == [WordOf(t)] + Tokens(Rest(t)) && WordOf(t) != []
                 && |t| == |WordOf(t)| + |Rest(t)| + if WordOf(t) == t then 0 else 1
  {
    SkippedOnly(s);
  }

  lemma PlaceWord(buf: seq<char>, args: seq<nat>, n: nat, argv: seq<seq<char>>, scan: nat, s: seq<char>)
    requires Placed(buf, args, n, argv, scan) && StringAt(buf, scan, s)
    requires n < |argv| && n < |args| && argv[n] == WordOf(s)
    ensures Placed(buf[scan + |WordOf(s)| := NUL], args[n := scan], n + 1, argv, scan + |WordOf(s)|)
  {
    var end := scan + |WordOf(s)|;
    assert buf[scan..end] == buf[scan..scan + |s|][..|WordOf(s)|];
    assert Placed(buf, args[n := scan], n, argv, scan);
    OneMorePlaced(buf, args[n := scan], n, argv, scan, end);
  }

  lemma FirstWord(buf: seq<char>, args: seq<nat>, command: seq<char>, scan: nat)
    requires |buf| > 2 && buf[0] == '.' && buf[1] == '/' && StringAt(buf, 2, command) && |args| > 0 && args[0] == 0
    requires scan == 2 + |WordOf(command)|
    ensures Placed(buf[scan := NUL], args, 1, Argv(command), scan)
  {
    hide WordOf, Tokens;
    var argv := Argv(command);
    assert buf[0..scan] == ['.', '/'] + command[..|WordOf(command)|];
    assert argv[0] == ['.', '/'] + WordOf(command);
    OneMorePlaced(buf, args, 0, argv, 0, scan);
  }

  // ---------------------------------------------------------------- the joiner

  /**
   * Join the arguments after the first into a buffer of `nbytes`. It succeeds exactly when they fit with their NUL;
   * copying a last argument that fills the buffer stores its NUL one byte beyond before the call fails.
   */
  method GetArgs(argv: seq<seq<char>>, buf: array<char>, nbytes: int) returns (ok: bool)
    requires argv != [] && buf.Length > nbytes
    modifies buf
    ensures ok <==> |Join(argv[1..])| + 1 <= nbytes
    ensures ok ==> StringAt(buf[..], 0, Join(argv[1..]))
    ensures forall k :: 0 <= k < buf.Length && k > nbytes ==> buf[k] == old(buf[k])
  {
    hide Join, AfterStart;
    var idx, at, left := 1, 0, nbytes;
    JoinNone();
    assert argv[|argv|..] == [];
    while idx < |argv|
      invariant 1 <= idx <= |argv| && 0 <= at && at + left == nbytes && (at > 0 ==> left >= 0)
      invariant at <= buf.Length && Join(argv[1..]) == buf[..at] + Join(argv[idx..])
      invariant forall k :: 0 <= k < buf.Length && k > nbytes ==> buf[k] == old(buf[k])
      decreases |argv| - idx
    {
      var word := argv[idx];
      JoinAt(argv, idx);
      if |word| > left {
        return false;
      }
      ghost var done := buf[..at];
      AppendWord(buf, at, word);
      at := at + |word|;
      left := left - |word|;
      idx := idx + 1;
      if idx >= |argv| {
        break;
      }
      if left < 1 {
        return false;
      }
      AppendSpace(buf, at);
      at := at + 1;
      left := left - 1;
    }
    if left < 1 {
      return false;
    }
    buf[at] := NUL;
    return true;
  }

  method AppendWord(buf: array<char>, at: nat, word: seq<char>)
    requires at + |word| < buf.Length
    modifies buf
    ensures buf[..at + |word|] == old(buf[..at]) + word
    ensures forall k :: 0 <= k < buf.Length && k > at + |word| ==> buf[k] == old(buf[k])
  {
    StrCpy(buf, at, word);
    assert buf[..at + |word|] == buf[..at] + buf[..][at..at + |word|];
  }

  method AppendSpace(buf: array<char>, at: nat)
    requires at < buf.Length
    modifies buf
    ensures buf[..at + 1] == old(buf[..at]) + [SPACE]
    ensures forall k :: 0 <= k < buf.Length && k > at ==> buf[k] == old(buf[k])
  {
    buf[at] := SPACE;
  }

  lemma JoinAt(argv: seq<seq<char>>, idx: nat)
    requires idx < |argv|
    ensures Join(argv[idx..]) ==
            if idx + 1 == |argv| then argv[idx] else argv[idx] + [SPACE] + Join(argv[idx + 1..])
  {
    JoinFirst(argv[idx..]);
    assert argv[idx..][1..] == argv[idx + 1..];
  }

  lemma JoinFirst(words: seq<seq<char>>)
    requires words != []
    ensures Join(words) == words[0] + AfterStart(words[1..])
  {
  }
}
