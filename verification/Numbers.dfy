/** Numbers written out as digits, and read back. */
module Numbers {
  import opened Arithmetic
  import opened Bytes

  const LOOKUP: seq<char> := "0123456789ABCDEFGHIJKLMNOPQRSTUVWXYZ"
  const MAX_RADIX := 36
  const TWO_32 := 0x1_0000_0000

  // ---------------------------------------------------------------- digits and what they are worth

  function DigitValue(c: char): (v: nat)
    ensures v <= MAX_RADIX
    ensures v < MAX_RADIX ==> LOOKUP[v] == c
  {
    if '0' <= c <= '9' then (c - '0') as nat else if 'A' <= c <= 'Z' then 10 + (c - 'A') as nat else MAX_RADIX
  }

  lemma LookupInverse(v: nat)
    requires v < MAX_RADIX
    ensures DigitValue(LOOKUP[v]) == v && LOOKUP[v] != NUL
  {
    assert LOOKUP[v] == if v < 10 then '0' + v as char else 'A' + (v - 10) as char;
  }

  /** Each character is a digit of this radix. */
  ghost predicate Numeral(s: seq<char>, radix: nat) {
    forall k :: 0 <= k < |s| ==> DigitValue(s[k]) < radix
  }

  /** A number put together from its last digit and what stands before it. */
  function Joined(front: nat, d: nat, radix: nat): nat {
    radix * front + d
  }

  lemma SplitAndJoin(value: nat, radix: nat)
    requires radix > 0
    ensures Joined(Quotient(value, radix), Remainder(value, radix), radix) == value
    ensures radix >= 2 && value > 0 ==> Quotient(value, radix) < value
    ensures Quotient(value, radix) == 0 && value > 0 ==> Remainder(value, radix) > 0
  {
    var q := Quotient(value, radix);
    Division(value, radix);
    hide Quotient, Remainder;
    if radix >= 2 {
      AtLeastTwice(q, radix);
    }
  }

  lemma JoinAndSplit(front: nat, d: nat, radix: nat)
    requires d < radix
    ensures Quotient(Joined(front, d, radix), radix) == front && Remainder(Joined(front, d, radix), radix) == d
    ensures front > 0 || d > 0 ==> Joined(front, d, radix) > 0
  {
    DivisionOf(front, d, radix);
    assert front > 0 ==> radix * front >= radix;
  }

  function Value(s: seq<char>, radix: nat): nat {
    if s == [] then 0 else Joined(Value(s[..|s| - 1], radix), DigitValue(s[|s| - 1]), radix)
  }

  /** The digits of a positive number, most significant first; none for 0. */
  function Digits(value: nat, radix: nat): (s: seq<char>)
    requires 2 <= radix <= MAX_RADIX
    ensures s == [] <==> value == 0
    decreases value
  {
    if value == 0 then []
    else
      SplitAndJoin(value, radix);
      Digits(Quotient(value, radix), radix) + [LOOKUP[Remainder(value, radix)]]
  }

  /** What `itoa` writes: 0 is written out. */
  function Written(value: nat, radix: nat): seq<char>
    requires 2 <= radix <= MAX_RADIX
  {
    if value == 0 then ['0'] else Digits(value, radix)
  }

  /** Reading back what was written gives the number, in digits of the radix and without a leading zero. */
  lemma {:induction false} DigitsReadBack(value: nat, radix: nat)
    requires 2 <= radix <= MAX_RADIX
    ensures Value(Digits(value, radix), radix) == value && Numeral(Digits(value, radix), radix)
    ensures value > 0 ==> Digits(value, radix)[0] != '0'
    decreases value
  {
    hide Quotient, Remainder, Joined, DigitValue, Value;
    if value == 0 {
      assert Value([], radix) == 0 by { ValueOfNone(radix); }
    } else {
      var front, d := Digits(Quotient(value, radix), radix), Remainder(value, radix);
      SplitAndJoin(value, radix);
      DigitsReadBack(Quotient(value, radix), radix);
      LookupInverse(d);
      ValueOfOneMore(front, LOOKUP[d], radix);
      assert front == [] ==> d != 0;
    }
  }

  lemma ValueOfNone(radix: nat)
    ensures Value([], radix) == 0
  {
  }

  lemma ValueOfOneMore(s: seq<char>, c: char, radix: nat)
    ensures Value(s + [c], radix) == Joined(Value(s, radix), DigitValue(c), radix)
    ensures Numeral(s, radix) && DigitValue(c) < radix ==> Numeral(s + [c], radix)
  {
    assert (s + [c])[..|s|] == s;
  }

  lemma WrittenReadsBack(value: nat, radix: nat)
    requires 2 <= radix <= MAX_RADIX
    ensures var s := Written(value, radix);
            && Value(s, radix) == value && Numeral(s, radix) && NUL !in s
            && s != [] && (s[0] == '0' <==> value == 0)
  {
    DigitsReadBack(value, radix);
    var s := Written(value, radix);
    assert forall k :: 0 <= k < |s| ==> DigitValue(s[k]) < radix;
  }

  /** No other numeral does: without a leading zero, the digits of a number are the only ones worth it. */
  lemma {:induction false} DigitsAreCanonical(s: seq<char>, radix: nat)
    requires 2 <= radix <= MAX_RADIX && Numeral(s, radix) && (s != [] ==> s[0] != '0')
    ensures Digits(Value(s, radix), radix) == s
    decreases |s|
  {
    hide Quotient, Remainder, Joined, Digits;
    if s == [] {
    } else {
      var front, d := s[..|s| - 1], DigitValue(s[|s| - 1]);
      DigitsAreCanonical(front, radix);
      assert s[|s| - 1] == LOOKUP[d];
      assert front == [] ==> d != 0;
      NextDigit(Value(front, radix), d, radix);
      assert s == front + [LOOKUP[d]];
    }
  }

  lemma NextDigit(front: nat, d: nat, radix: nat)
    requires 2 <= radix <= MAX_RADIX && d < radix && (front == 0 ==> d != 0)
    ensures Digits(Joined(front, d, radix), radix) == Digits(front, radix) + [LOOKUP[d]]
  {
    JoinAndSplit(front, d, radix);
    hide Quotient, Remainder, Joined;
  }

  function Power(radix: nat, k: nat): nat {
    if k == 0 then 1 else radix * Power(radix, k - 1)
  }

  /** A number below the k-th power of the radix has at most k digits. */
  lemma {:induction false} DigitsShort(value: nat, radix: nat, k: nat)
    requires 2 <= radix <= MAX_RADIX && value < Power(radix, k)
    ensures |Digits(value, radix)| <= k
    decreases k
  {
    if value > 0 {
      SplitAndJoin(value, radix);
      QuotientBelow(value, radix, Power(radix, k - 1));
      hide Quotient, Remainder;
      DigitsShort(Quotient(value, radix), radix, k - 1);
    }
  }

  lemma QuotientBelow(value: nat, radix: nat, bound: nat)
    requires radix > 0 && value < radix * bound
    ensures Quotient(value, radix) < bound
  {
    var q := Quotient(value, radix);
    Division(value, radix);
    hide Quotient, Remainder;
    assert q >= bound ==> radix * q >= radix * bound;
  }

  lemma PowersOf16()
    ensures Power(16, 8) == TWO_32
  {
    assert Power(16, 2) == 0x100;
    assert Power(16, 4) == 0x1_0000;
  }

  lemma {:induction false} PowerAtLeast(radix: nat, k: nat)
    requires radix >= 2
    ensures Power(radix, k) >= Power(2, k)
  {
    if k > 0 {
      PowerAtLeast(radix, k - 1);
      AtLeastTwice(Power(radix, k - 1), radix);
    }
  }

  /** Any 32-bit number fits in 32 digits of any radix. */
  lemma WrittenFits(value: nat, radix: nat)
    requires 2 <= radix <= MAX_RADIX && value < TWO_32
    ensures |Written(value, radix)| <= 32
  {
    assert Power(2, 32) == TWO_32 by {
      assert Power(2, 8) == 0x100;
      assert Power(2, 16) == 0x1_0000;
      assert Power(2, 24) == 0x100_0000;
    }
    PowerAtLeast(radix, 32);
    DigitsShort(value, radix, 32);
  }

  /** Leading zeros add nothing. */
  lemma {:induction false} ZerosAddNothing(zeros: seq<char>, s: seq<char>, radix: nat)
    requires forall k :: 0 <= k < |zeros| ==> zeros[k] == '0'
    ensures Value(zeros + s, radix) == Value(s, radix)
    decreases |zeros| + |s|
  {
    if s != [] {
      assert (zeros + s)[..|zeros + s| - 1] == zeros + s[..|s| - 1];
      ZerosAddNothing(zeros, s[..|s| - 1], radix);
    } else if zeros != [] {
      assert (zeros + s)[..|zeros + s| - 1] == zeros[..|zeros| - 1] + s;
      ZerosAddNothing(zeros[..|zeros| - 1], s, radix);
    }
  }

  function Reversed(s: seq<char>): (r: seq<char>)
    ensures |r| == |s| && forall k :: 0 <= k < |s| ==> r[k] == s[|s| - 1 - k]
  {
    seq(|s|, k requires 0 <= k < |s| => s[|s| - 1 - k])
  }

  // ---------------------------------------------------------------- the library

  /** A NUL ends the string that starts at `at`. */
  ghost predicate Ended(s: seq<char>, at: nat) {
    exists k :: at <= k < |s| && s[k] == NUL
  }

  method StrLen(s: array<char>, at: nat) returns (len: nat)
    requires Ended(s[..], at)
    ensures at + len < s.Length && s[at + len] == NUL && NUL !in s[at..at + len]
  {
    ghost var k :| at <= k < s.Length && s[k] == NUL;
    len := 0;
    while s[at + len] != NUL
      invariant at + len <= k && NUL !in s[at..at + len]
      decreases k - len
    {
      len := len + 1;
    }
  }

  /** Reverse a string where it lies. */
  method StrRev(s: array<char>, at: nat, ghost len: nat)
    requires at + len < s.Length && s[at + len] == NUL && NUL !in s[at..at + len]
    modifies s
    ensures s[at..at + len] == Reversed(old(s[at..at + len]))
    ensures forall k :: 0 <= k < s.Length && !(at <= k < at + len) ==> s[k] == old(s[k])
  {
    var n := StrLen(s, at);
    SameEnd(s[..], at, n, len);
    var beg: int, end: int := 0, n as int - 1;
    while beg < end
      invariant 0 <= beg && beg + end + 1 == n && -1 <= end
      invariant forall k :: at <= k < at + n ==>
                  s[k] == if at + beg <= k <= at + end then old(s[k]) else old(s[2 * at + n - 1 - k])
      invariant forall k :: 0 <= k < s.Length && !(at <= k < at + n) ==> s[k] == old(s[k])
      decreases end - beg
    {
      s[at + end], s[at + beg] := s[at + beg], s[at + end];
      beg := beg + 1;
      end := end - 1;
    }
    MirroredSlice(s[..], old(s[..]), at, n);
    assert s[at..at + n] == s[..][at..at + n] && old(s[at..at + n]) == old(s[..])[at..at + n];
  }

  lemma MirroredSlice(after: seq<char>, before: seq<char>, at: nat, n: nat)
    requires |after| == |before| && at + n <= |after|
    requires forall k :: at <= k < at + n ==> after[k] == before[2 * at + n - 1 - k]
    ensures after[at..at + n] == Reversed(before[at..at + n])
  {
  }

  lemma SameEnd(s: seq<char>, at: nat, m: nat, n: nat)
    requires at + m < |s| && at + n < |s|
    requires s[at + m] == NUL && NUL !in s[at..at + m]
    requires s[at + n] == NUL && NUL !in s[at..at + n]
    ensures m == n
  {
    SliceHolds(s, at, m);
    SliceHolds(s, at, n);
  }

  lemma SliceHolds(s: seq<char>, at: nat, n: nat)
    requires at + n <= |s|
    ensures forall k :: at <= k < at + n ==> s[k] in s[at..at + n]
  {
    assert forall k :: at <= k < at + n ==> s[at..at + n][k - at] == s[k];
  }

  /** Write a number at `at`: the digits least significant first, a NUL, then the whole turned round. */
  method Itoa(value: nat, buf: array<char>, at: nat, radix: nat)
    requires 2 <= radix <= MAX_RADIX && at + |Written(value, radix)| < buf.Length
    modifies buf
    ensures Holds(buf[..], at, Written(value, radix))
    ensures forall k :: 0 <= k < buf.Length && !(at <= k <= at + |Written(value, radix)|) ==> buf[k] == old(buf[k])
  {
    if value == 0 {
      buf[at] := '0';
      buf[at + 1] := NUL;
      return;
    }
    var p := DigitsBackward(value, buf, at, radix);
    ReversedHasNoNul(buf[at..p], value, radix);
    EndAndReverse(buf, at, p);
  }

  method EndAndReverse(buf: array<char>, at: nat, p: nat)
    requires at <= p < buf.Length && NUL !in buf[at..p]
    modifies buf
    ensures Holds(buf[..], at, Reversed(old(buf[at..p])))
    ensures forall k :: 0 <= k < buf.Length && !(at <= k <= p) ==> buf[k] == old(buf[k])
  {
    hide Reversed;
    ghost var backward := buf[at..p];
    buf[p] := NUL;
    assert buf[at..p] == backward;
    StrRev(buf, at, p - at);
    assert buf[..][at..p] == buf[at..p];
  }

  method DigitsBackward(value: nat, buf: array<char>, at: nat, radix: nat) returns (p: nat)
    requires 2 <= radix <= MAX_RADIX && at + |Digits(value, radix)| < buf.Length
    modifies buf
    ensures p == at + |Digits(value, radix)| && Digits(value, radix) == Reversed(buf[at..p])
    ensures forall k :: 0 <= k < buf.Length && !(at <= k < p) ==> buf[k] == old(buf[k])
  {
    hide Digits;
    p := at;
    var newval: nat := value;
    while newval > 0
      invariant at <= p <= at + |Digits(value, radix)|
      invariant Digits(value, radix) == Digits(newval, radix) + Reversed(buf[at..p])
      invariant forall k :: 0 <= k < buf.Length && !(at <= k < p) ==> buf[k] == old(buf[k])
      decreases newval
    {
      ghost var written := buf[at..p];
      DigitWritten(value, newval, radix, written);
      var i := newval % radix;
      buf[p] := LOOKUP[i];
      p := p + 1;
      assert buf[at..p] == written + [LOOKUP[i]];
      newval := newval / radix;
    }
  }

  lemma DigitWritten(value: nat, left: nat, radix: nat, written: seq<char>)
    requires 2 <= radix <= MAX_RADIX && left > 0
    requires Digits(value, radix) == Digits(left, radix) + Reversed(written)
    ensures 0 <= left / radix < left
    ensures Digits(value, radix) == Digits(left / radix, radix) + Reversed(written + [LOOKUP[left % radix]])
  {
    SplitAndJoin(left, radix);
    assert Quotient(left, radix) == left / radix && Remainder(left, radix) == left % radix;
    hide Quotient, Remainder, Joined, Value;
    assert Reversed(written + [LOOKUP[left % radix]]) == [LOOKUP[left % radix]] + Reversed(written);
  }

  lemma ReversedHasNoNul(backward: seq<char>, value: nat, radix: nat)
    requires 2 <= radix <= MAX_RADIX && value > 0 && Digits(value, radix) == Reversed(backward)
    ensures NUL !in backward
  {
    WrittenReadsBack(value, radix);
    forall k | 0 <= k < |backward|
      ensures backward[k] != NUL
    {
      assert Reversed(backward)[|backward| - 1 - k] == backward[k];
      assert Reversed(backward)[|backward| - 1 - k] in Reversed(backward);
    }
  }

  /** The characters printed from `at` up to the NUL. */
  method Puts(s: array<char>, at: nat) returns (out: seq<char>)
    requires Ended(s[..], at)
    ensures at + |out| < s.Length && s[at + |out|] == NUL && out == s[at..at + |out|] && NUL !in out
  {
    ghost var k :| at <= k < s.Length && s[k] == NUL;
    out := [];
    while s[at + |out|] != NUL
      invariant at + |out| <= k && out == s[at..at + |out|] && NUL !in out
      decreases k - |out|
    {
      out := out + [s[at + |out|]];
    }
  }

  /**
   * `%#x`: the number is written at 8, and zeros before it from its length on, so that printing from there gives
   * always eight digits, whatever the buffer held.
   */
  method PrintHex(value: nat) returns (out: seq<char>)
    requires value < TWO_32
    ensures |out| == 8 && Numeral(out, 16) && Value(out, 16) == value
  {
    hide Value, Digits, Zeros;
    var convBuf := new char[64];
    ghost var digits := Written(value, 16);
    PaddedHex(value);
    Itoa(value, convBuf, 8, 16);
    TextAt(convBuf[..], 8, digits);
    var start := StrLen(convBuf, 8);
    SameEnd(convBuf[..], 8, start, |digits|);
    out := PrintPadded(convBuf, start, digits);
  }

  lemma PaddedHex(value: nat)
    requires value < TWO_32
    ensures var digits := Written(value, 16);
            && |digits| <= 8 && NUL !in digits
            && Numeral(Zeros(8 - |digits|) + digits, 16) && Value(Zeros(8 - |digits|) + digits, 16) == value
  {
    hide Digits, Value, Joined, DigitValue;
    PowersOf16();
    DigitsShort(value, 16, 8);
    WrittenReadsBack(value, 16);
    ShortWritten(value, 16, 8);
    hide Power, Written;
    var zeros, digits := Zeros(8 - |Written(value, 16)|), Written(value, 16);
    ZerosAddNothing(zeros, digits, 16);
    NumeralSum(zeros, digits, 16);
  }

  lemma ShortWritten(value: nat, radix: nat, k: nat)
    requires 2 <= radix <= MAX_RADIX && |Digits(value, radix)| <= k && k > 0
    ensures |Written(value, radix)| <= k
  {
  }

  lemma NumeralSum(zeros: seq<char>, s: seq<char>, radix: nat)
    requires (forall k :: 0 <= k < |zeros| ==> zeros[k] == '0') && radix > 0 && Numeral(s, radix)
    ensures Numeral(zeros + s, radix)
  {
  }

  function Zeros(n: nat): (s: seq<char>)
    ensures |s| == n && forall k :: 0 <= k < n ==> s[k] == '0'
  {
    seq(n, _ => '0')
  }

  ghost predicate Holds(s: seq<char>, at: nat, text: seq<char>) {
    at + |text| < |s| && s[at..at + |text|] == text && s[at + |text|] == NUL
  }

  lemma TextAt(s: seq<char>, at: nat, text: seq<char>)
    requires Holds(s, at, text) && NUL !in text
    ensures Ended(s, at) && NUL !in s[at..at + |text|]
  {
  }

  /** Print a text that is known to be there. */
  method PutsText(buf: array<char>, at: nat, ghost text: seq<char>) returns (out: seq<char>)
    requires Holds(buf[..], at, text) && NUL !in text
    ensures out == text
  {
    TextAt(buf[..], at, text);
    out := Puts(buf, at);
    SameEnd(buf[..], at, |out|, |text|);
  }

  /** Zeros up to the digits, then print from the first zero. */
  method PrintPadded(convBuf: array<char>, start: nat, ghost digits: seq<char>) returns (out: seq<char>)
    requires start == |digits| <= 8 && Holds(convBuf[..], 8, digits) && NUL !in digits
    modifies convBuf
    ensures out == Zeros(8 - |digits|) + digits
  {
    var i := start;
    while i < 8
      invariant start <= i <= 8 && (forall k :: start <= k < i ==> convBuf[k] == '0')
      invariant Holds(convBuf[..], 8, digits)
    {
      convBuf[i] := '0';
      i := i + 1;
      assert convBuf[8..8 + |digits|] == digits;
    }
    ghost var text := Zeros(8 - |digits|) + digits;
    assert convBuf[start..8] == Zeros(8 - |digits|);
    assert convBuf[start..start + |text|] == convBuf[start..8] + convBuf[8..8 + |digits|];
    out := PutsText(convBuf, start, text);
  }

  /** `%d`: a sign, then the size of the number in decimal. */
  method PrintDecimal(value: int) returns (out: seq<char>)
    requires -0x8000_0000 <= value < 0x8000_0000
    ensures out == if value < 0 then ['-'] + Written(-value, 10) else Written(value, 10)
  {
    var convBuf := new char[36];
    ghost var size: nat := if value < 0 then -value else value;
    ghost var digits := Written(size, 10);
    WrittenFits(size, 10);
    WrittenReadsBack(size, 10);
    hide Written, Digits, Value, Numeral, Holds;
    if value < 0 {
      convBuf[0] := '-';
      Itoa(-value, convBuf, 1, 10);
      SignedHolds(convBuf[..], digits);
      out := PutsText(convBuf, 0, ['-'] + digits);
    } else {
      Itoa(value, convBuf, 0, 10);
      out := PutsText(convBuf, 0, digits);
    }
  }

  lemma SignedHolds(buf: seq<char>, digits: seq<char>)
    requires Holds(buf, 1, digits) && buf[0] == '-'
    ensures Holds(buf, 0, ['-'] + digits)
  {
    assert buf[0..1 + |digits|] == [buf[0]] + buf[1..1 + |digits|];
  }

  /** Digits past 9 are capital letters. */
  lemma WrittenExamples()
    ensures Written(0, 10) == "0" && Written(10, 16) == "A" && Written(255, 16) == "FF" && Written(35, 36) == "Z"
  {
    hide Digits;
    OneDigit(10, 16);
    OneDigit(15, 16);
    OneDigit(35, 36);
    NextDigit(15, 15, 16);
    assert Joined(15, 15, 16) == 255;
  }

  lemma OneDigit(d: nat, radix: nat)
    requires 0 < d < radix <= MAX_RADIX
    ensures Digits(d, radix) == [LOOKUP[d]]
  {
    NextDigit(0, d, radix);
    hide Digits;
    assert Digits(0, radix) == [];
  }

  /** Two different numbers never print alike. */
  lemma PrintedDistinct(a: nat, b: nat, radix: nat)
    requires 2 <= radix <= MAX_RADIX && a != b
    ensures Written(a, radix) != Written(b, radix)
  {
    WrittenReadsBack(a, radix);
    WrittenReadsBack(b, radix);
  }
}
