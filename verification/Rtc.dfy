/**
 * One hardware clock at 1024 Hz, shared out so that each terminal appears to have a clock of its own rate.
 * Terminals are numbered from 0.
 */
module Rtc {
  import opened Arithmetic

  const MAX_FREQ := 1024

  /** A terminal's counter, its reload value, whether its flag is up, and the rate it asked for. */
  datatype Clock = Clock(count: nat, reload: nat, flag: bool, frequency: nat)

  // ---------------------------------------------------------------- one terminal's clock

  function Interrupted(c: Clock): Clock {
    if c.count == 0 then c.(count := c.reload, flag := true) else c.(count := c.count - 1)
  }

  /** How many of the next `n` interrupts raise the flag. */
  function Raises(c: Clock, n: nat): nat
    decreases n
  {
    if n == 0 then 0 else (if c.count == 0 then 1 else 0) + Raises(Interrupted(c), n - 1)
  }

  function After(c: Clock, n: nat): Clock
    decreases n
  {
    if n == 0 then c else After(Interrupted(c), n - 1)
  }

  /** None for as long as the counter lasts, then one in every `reload + 1`. */
  lemma {:induction false} RaisesInClosedForm(c: Clock, n: nat)
    ensures Raises(c, n) == if n <= c.count then 0 else 1 + (n - c.count - 1) / (c.reload + 1)
    decreases n
  {
    if n > 0 {
      RaisesInClosedForm(Interrupted(c), n - 1);
      if c.count == 0 && n > c.reload + 1 {
        DivideLess(n - 1, c.reload + 1);
      } else if c.count == 0 {
        SmallQuotient(n - 1, c.reload + 1);
      }
    }
  }

  lemma DivideLess(a: nat, d: nat)
    requires 0 < d <= a
    ensures a / d == 1 + (a - d) / d
  {
    var q, r := Quotient(a - d, d), Remainder(a - d, d);
    Division(a - d, d);
    assert d * (q + 1) == d * q + d;
    DivisionOf(q + 1, r, d);
  }

  lemma SmallQuotient(a: nat, d: nat)
    requires a < d
    ensures a / d == 0
  {
    DivisionOf(0, a, d);
  }

  /**
   * A reader lowers the flag and waits for it. Whatever the counter, the wait ends at exactly the interrupt after it
   * runs out, and the next wait, begun at once, takes `reload + 1` more: one interrupt over the comment's count.
   */
  lemma {:induction false} ReadWaits(c: Clock, n: nat)
    requires !c.flag
    ensures After(c, n).flag <==> n > c.count
    ensures n == c.count + 1 ==> After(c, n) == c.(count := c.reload, flag := true)
    decreases n
  {
    if n > 0 && c.count > 0 {
      ReadWaits(Interrupted(c), n - 1);
    } else if n > 0 {
      FlagStaysUp(Interrupted(c), n - 1);
    }
  }

  lemma {:induction false} FlagStaysUp(c: Clock, n: nat)
    requires c.flag
    ensures After(c, n).flag
    decreases n
  {
    if n > 0 {
      FlagStaysUp(Interrupted(c), n - 1);
    }
  }

  // ---------------------------------------------------------------- the rates accepted

  function Pow2(k: nat): (p: nat)
    ensures p > 0
  {
    if k == 0 then 1 else 2 * Pow2(k - 1)
  }

  ghost predicate IsPowerOfTwo(n: int) {
    exists k: nat :: n == Pow2(k)
  }

  lemma HalvePower(n: nat)
    requires n > 0 && n % 2 == 0
    ensures IsPowerOfTwo(n) <==> IsPowerOfTwo(n / 2)
  {
    if IsPowerOfTwo(n) {
      var k: nat :| n == Pow2(k);
      assert n / 2 == Pow2(k - 1);
    }
    if IsPowerOfTwo(n / 2) {
      var k: nat :| n / 2 == Pow2(k);
      assert n == Pow2(k + 1);
    }
  }

  lemma OddPower(n: nat)
    requires n % 2 == 1
    ensures IsPowerOfTwo(n) <==> n == 1
  {
    assert Pow2(0) == 1;
  }

  /** Up to 1024 the powers of two are the eleven the table lists. */
  lemma PowersListed(n: int)
    requires 1 <= n <= MAX_FREQ && IsPowerOfTwo(n)
    ensures n in {1, 2, 4, 8, 16, 32, 64, 128, 256, 512, 1024}
  {
    var k: nat :| n == Pow2(k);
    if k > 10 {
      PowersGrow(11, k);
      assert false;
    }
  }

  lemma {:induction false} PowersGrow(j: nat, k: nat)
    requires j <= k
    ensures Pow2(j) <= Pow2(k)
    decreases k
  {
    if j < k {
      PowersGrow(j, k - 1);
    }
  }

  /** A terminal that has opened its clock, or set its rate, reloads its counter to match. */
  ghost predicate Tuned(c: Clock) {
    c.reload * c.frequency == MAX_FREQ
  }

  // ---------------------------------------------------------------- runs on all terminals

  datatype Event =
    | Interrupt
    | Open(terminal: nat)
    | Write(terminal: nat, frequency: int)
    | Read(terminal: nat)

  function Opened(c: Clock): Clock {
    c.(reload := 512, frequency := 2)
  }

  function Lowered(c: Clock): Clock {
    c.(flag := false)
  }

  predicate Accepts(frequency: int) {
    frequency in {1, 2, 4, 8, 16, 32, 64, 128, 256, 512, 1024}
  }

  /** The accepted rates are exactly the powers of two the hardware can reach. */
  lemma AcceptsExactly(n: int)
    ensures Accepts(n) <==> 1 <= n <= MAX_FREQ && IsPowerOfTwo(n)
  {
    if 1 <= n <= MAX_FREQ && IsPowerOfTwo(n) {
      PowersListed(n);
    }
    PowersUpTo10();
  }

  lemma PowersUpTo10()
    ensures Pow2(0) == 1 && Pow2(1) == 2 && Pow2(2) == 4 && Pow2(3) == 8 && Pow2(4) == 16 && Pow2(5) == 32
    ensures Pow2(6) == 64 && Pow2(7) == 128 && Pow2(8) == 256 && Pow2(9) == 512 && Pow2(10) == 1024
  {
  }

  function Written(c: Clock, frequency: int): Clock {
    if Accepts(frequency) then c.(reload := MAX_FREQ / frequency, frequency := frequency) else c
  }

  /** An accepted rate is recorded as it is, with the reload value that makes 1024 of it; the count goes on. */
  lemma WriteSets(c: Clock, frequency: int)
    requires 1 <= frequency <= 1024 && IsPowerOfTwo(frequency)
    ensures var w := Written(c, frequency);
            && w.frequency == frequency && w.reload * frequency == 1024
            && w.count == c.count && w.flag == c.flag
  {
    AcceptsExactly(frequency);
  }

  /** From then on reads begun one after another take what is left of the count, and then 1024 / frequency + 1 each. */
  lemma ReadsAtRate(c: Clock, frequency: nat, times: nat)
    requires 1 <= frequency <= 1024 && IsPowerOfTwo(frequency) && times > 0
    ensures ReadsTake(Written(c, frequency), times) == c.count + 1 + (times - 1) * (1024 / frequency + 1)
  {
    AcceptsExactly(frequency);
    ReadsTakeExactly(Written(c, frequency), times);
  }

  /** Anything else written leaves the clock alone; opening sets 2 Hz, 512 interrupts of the hardware's 1024. */
  lemma OpenSets(c: Clock, frequency: int)
    ensures !(1 <= frequency <= 1024 && IsPowerOfTwo(frequency)) ==> Written(c, frequency) == c
    ensures var o := Opened(c); o.frequency == 2 && o.reload == 512 && o.count == c.count && o.flag == c.flag
  {
    AcceptsExactly(frequency);
  }

  function Own(c: Clock, e: Event): Clock {
    match e
    case Interrupt => Interrupted(c)
    case Open(_) => Opened(c)
    case Write(_, f) => Written(c, f)
    case Read(_) => Lowered(c)
  }

  predicate Concerns(e: Event, t: nat) {
    e.Interrupt? || e.terminal == t
  }

  /** What an event does to all the clocks at once. */
  function Step(clocks: seq<Clock>, e: Event): (r: seq<Clock>)
    requires !e.Interrupt? ==> e.terminal < |clocks|
    ensures |r| == |clocks|
  {
    if e.Interrupt? then seq(|clocks|, i requires 0 <= i < |clocks| => Interrupted(clocks[i]))
    else clocks[e.terminal := Own(clocks[e.terminal], e)]
  }

  ghost predicate Known(es: seq<Event>, terminals: nat) {
    forall i :: 0 <= i < |es| ==> es[i].Interrupt? || es[i].terminal < terminals
  }

  function Run(clocks: seq<Clock>, es: seq<Event>): (r: seq<Clock>)
    requires Known(es, |clocks|)
    ensures |r| == |clocks|
    decreases |es|
  {
    if es == [] then clocks else Run(Step(clocks, es[0]), es[1..])
  }

  function RunOwn(c: Clock, es: seq<Event>, t: nat): Clock
    decreases |es|
  {
    if es == [] then c else RunOwn(if Concerns(es[0], t) then Own(c, es[0]) else c, es[1..], t)
  }

  /** Each terminal has the clock it would have alone, whatever the others open, set and read. */
  lemma {:induction false} ClocksAreIndependent(clocks: seq<Clock>, es: seq<Event>, t: nat)
    requires Known(es, |clocks|) && t < |clocks|
    ensures Run(clocks, es)[t] == RunOwn(clocks[t], es, t)
    decreases |es|
  {
    if es != [] {
      ClocksAreIndependent(Step(clocks, es[0]), es[1..], t);
    }
  }

  /** A rate once set or opened is kept to: reload times rate is 1024 after any run. */
  lemma {:induction false} StaysTuned(c: Clock, es: seq<Event>, t: nat)
    requires Tuned(c)
    ensures Tuned(RunOwn(c, es, t))
    decreases |es|
  {
    if es != [] {
      StaysTuned(if Concerns(es[0], t) then Own(c, es[0]) else c, es[1..], t);
    }
  }

  /** How many interrupts `times` reads take, each begun as the one before it ends. */
  function ReadsTake(c: Clock, times: nat): nat
    decreases times
  {
    if times == 0 then 0 else c.count + 1 + ReadsTake(After(Lowered(c), c.count + 1), times - 1)
  }

  lemma {:induction false} ReadsTakeExactly(c: Clock, times: nat)
    requires times > 0
    ensures ReadsTake(c, times) == c.count + 1 + (times - 1) * (c.reload + 1)
    decreases times
  {
    ReadWaits(Lowered(c), c.count + 1);
    if times > 1 {
      var next := After(Lowered(c), c.count + 1);
      ReadsTakeExactly(next, times - 1);
      assert next.count + 1 + (times - 2) * (c.reload + 1) == (times - 1) * (c.reload + 1);
    }
  }

  // ---------------------------------------------------------------- the driver

  class Driver {
    const freqCount: array<nat>
    const currCount: array<nat>
    const currFreq: array<nat>
    const flag: array<bool>

    ghost predicate Valid()
      reads this
    {
      && freqCount != currCount && freqCount != currFreq && currCount != currFreq
      && freqCount.Length == currCount.Length == currFreq.Length == flag.Length
    }

    ghost function Of(t: nat): Clock
      requires Valid() && t < flag.Length
      reads this, freqCount, currCount, currFreq, flag
    {
      Clock(currCount[t], freqCount[t], flag[t], currFreq[t])
    }

    constructor (terminals: nat)
      ensures Valid() && flag.Length == terminals
      ensures forall t :: 0 <= t < terminals ==> Of(t) == Clock(1, 1, false, MAX_FREQ) && Tuned(Of(t))
    {
      freqCount := new nat[terminals](_ => 1);
      currCount := new nat[terminals](_ => 1);
      currFreq := new nat[terminals](_ => MAX_FREQ);
      flag := new bool[terminals](_ => false);
    }

    /** Every terminal's clock takes the interrupt, each by itself. */
    method RtcHandler()
      requires Valid()
      modifies currCount, flag
      ensures forall t :: 0 <= t < flag.Length ==> Of(t) == Interrupted(old(Of(t)))
    {
      for i := 0 to flag.Length
        invariant forall t :: 0 <= t < flag.Length ==> Of(t) == if t < i then Interrupted(old(Of(t))) else old(Of(t))
      {
        if currCount[i] == 0 {
          currCount[i] := freqCount[i];
          flag[i] := true;
        } else {
          currCount[i] := currCount[i] - 1;
        }
      }
    }

    method RtcOpen(scheduled: nat)
      requires Valid() && scheduled < flag.Length
      modifies freqCount, currFreq
      ensures Of(scheduled) == Opened(old(Of(scheduled)))
      ensures freqCount[scheduled] == 512 && currFreq[scheduled] == 2
      ensures forall t :: 0 <= t < flag.Length && t != scheduled ==> Of(t) == old(Of(t))
    {
      freqCount[scheduled] := 512;
      currFreq[scheduled] := 2;
    }

    /** A read up to the moment it starts waiting. */
    method RtcRead(scheduled: nat)
      requires Valid() && scheduled < flag.Length
      modifies flag
      ensures Of(scheduled) == Lowered(old(Of(scheduled))) == old(Of(scheduled)).(flag := false)
      ensures forall t :: 0 <= t < flag.Length && t != scheduled ==> Of(t) == old(Of(t))
    {
      flag[scheduled] := false;
    }

    /** Whether a written rate is accepted: halve until odd, and see whether 1 is left. */
    method PowerOfTwo(frequency: nat) returns (yes: bool)
      requires frequency > 0
      ensures yes <==> IsPowerOfTwo(frequency)
    {
      var temp := frequency;
      while temp % 2 == 0
        invariant temp > 0 && (IsPowerOfTwo(temp) <==> IsPowerOfTwo(frequency))
        decreases temp
      {
        HalvePower(temp);
        temp := temp / 2;
      }
      OddPower(temp);
      yes := temp == 1;
    }

    /**
     * `frequency` is the argument read as a signed word. Exactly the four-byte powers of two up to 1024 are accepted,
     * and then the reload value times the rate is 1024; anything else changes nothing.
     */
    method RtcWrite(scheduled: nat, frequency: int, nbytes: int) returns (result: int)
      requires Valid() && scheduled < flag.Length
      modifies freqCount, currFreq
      ensures result == 0 <==> nbytes == 4 && 1 <= frequency <= MAX_FREQ && IsPowerOfTwo(frequency)
      ensures result == 0 || result == -1
      ensures result == -1 ==> Of(scheduled) == old(Of(scheduled))
      ensures result == 0 ==> Of(scheduled) == Written(old(Of(scheduled)), frequency)
      ensures result == 0 ==> currFreq[scheduled] == frequency && freqCount[scheduled] * frequency == 1024
      ensures forall t :: 0 <= t < flag.Length && t != scheduled ==> Of(t) == old(Of(t))
    {
      if nbytes != 4 {
        return -1;
      }
      if frequency < 1 || frequency > MAX_FREQ {
        return -1;
      }
      var accepted := PowerOfTwo(frequency);
      if !accepted {
        AcceptsExactly(frequency);
        return -1;
      }
      AcceptsExactly(frequency);
      currFreq[scheduled] := frequency;
      if frequency == 1024 { freqCount[scheduled] := 1; }
      else if frequency == 512 { freqCount[scheduled] := 2; }
      else if frequency == 256 { freqCount[scheduled] := 4; }
      else if frequency == 128 { freqCount[scheduled] := 8; }
      else if frequency == 64 { freqCount[scheduled] := 16; }
      else if frequency == 32 { freqCount[scheduled] := 32; }
      else if frequency == 16 { freqCount[scheduled] := 64; }
      else if frequency == 8 { freqCount[scheduled] := 128; }
      else if frequency == 4 { freqCount[scheduled] := 256; }
      else if frequency == 2 { freqCount[scheduled] := 512; }
      else if frequency == 1 { freqCount[scheduled] := 1024; }
      return 0;
    }
  }
}
