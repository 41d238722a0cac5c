/**
 * The blinking characters as a list: adding, removing, synchronising, and what each looks like after any number of
 * ticks.
 */
module BlinkList {
  import opened Arithmetic

  const CELLS := 2000
  const WORD := 0x1_0000
  const SIGN := 0x8000

  /** Lengths and countdowns are 16-bit words; `location` counts screen cells, 0 marking a free slot. */
  datatype Entry = Entry(
    location: nat, onChar: char, offChar: char, onLength: nat, offLength: nat, countdown: nat, on: bool)

  ghost predicate Words(e: Entry) {
    e.location < WORD && e.onLength < WORD && e.offLength < WORD && e.countdown < WORD
  }

  /** A program's calls, by the argument words they carry, and the clock. */
  datatype Op =
    | Add(e: Entry)
    | Remove(argument: nat)
    | Sync(argument: nat)
    | Tick

  /** Where the first entry for a location stands, or the length of the list. */
  function FirstAt(list: seq<Entry>, location: nat): (i: nat)
    ensures i <= |list|
    ensures i < |list| ==> list[i].location == location
    ensures forall j :: 0 <= j < i ==> list[j].location != location
  {
    if list == [] || list[0].location == location then 0 else 1 + FirstAt(list[1..], location)
  }

  lemma {:induction false} FirstAtUnique(list: seq<Entry>, location: nat, i: nat)
    requires i <= |list| && (i < |list| ==> list[i].location == location)
    requires forall j :: 0 <= j < i ==> list[j].location != location
    ensures FirstAt(list, location) == i
  {
    var f := FirstAt(list, location);
  }

  /** One tick: a 16-bit decrement, a signed test, and a toggle when time is up. */
  function Ticked(e: Entry): Entry {
    var c := (e.countdown + WORD - 1) % WORD;
    if 0 < c < SIGN then e.(countdown := c)
    else e.(countdown := if e.on then e.offLength else e.onLength, on := !e.on)
  }

  /** An entry as it goes into the list: on, with its first length to run. */
  function Started(e: Entry): Entry {
    e.(countdown := e.onLength, on := true)
  }

  function TickAll(list: seq<Entry>): (r: seq<Entry>)
    ensures |r| == |list|
  {
    seq(|list|, i requires 0 <= i < |list| => Ticked(list[i]))
  }

  function Copied(from: Entry, to: Entry): Entry {
    to.(onLength := from.onLength, offLength := from.offLength, countdown := from.countdown, on := from.on)
  }

  /** A call's argument is a 32-bit word; the search for a location looks at 16 bits of what it is given. */
  function LowWord(argument: nat): (w: nat)
    ensures w < WORD
  {
    argument % WORD
  }

  function HighWord(argument: nat): (w: nat)
    ensures w < WORD
  {
    LowWord(argument / WORD)
  }

  function Without(list: seq<Entry>, i: nat): seq<Entry>
    requires i < |list|
  {
    list[..i] + list[i + 1..]
  }

  predicate Accepted(list: seq<Entry>, op: Op) {
    match op
    case Add(e) => e.location < CELLS && |list| < CELLS
    case Remove(a) => FirstAt(list, LowWord(a)) < |list|
    case Sync(a) => FirstAt(list, HighWord(a)) < |list| && FirstAt(list, LowWord(a)) < |list|
    case Tick => true
  }

  /** A refused call changes nothing. */
  function Step(list: seq<Entry>, op: Op): seq<Entry> {
    if !Accepted(list, op) then list
    else
      match op
      case Add(e) => [Started(e)] + list
      case Remove(a) => Without(list, FirstAt(list, LowWord(a)))
      case Sync(a) =>
        var i, j := FirstAt(list, HighWord(a)), FirstAt(list, LowWord(a));
        list[j := Copied(list[i], list[j])]
      case Tick => TickAll(list)
  }

  function Run(list: seq<Entry>, ops: seq<Op>): seq<Entry>
    decreases |ops|
  {
    if ops == [] then list else Run(Step(list, ops[0]), ops[1..])
  }

  // ---------------------------------------------------------------- following one location

  datatype Shown = Shown(entry: Entry) | Nothing

  /** The entry a call naming this location reaches. */
  function At(list: seq<Entry>, location: nat): Shown {
    var i := FirstAt(list, location);
    if i < |list| then Shown(list[i]) else Nothing
  }

  /** The call does not add, remove or synchronise to this location. */
  predicate LeavesAlone(op: Op, location: nat) {
    match op
    case Add(e) => e.location != location
    case Remove(a) => LowWord(a) != location
    case Sync(a) => LowWord(a) != location
    case Tick => true
  }

  function Advanced(s: Shown, op: Op): Shown {
    if s.Shown? && op.Tick? then Shown(Ticked(s.entry)) else s
  }

  /** The call takes a slot for location 0, which leaves the slot marked free. */
  predicate PutsZero(list: seq<Entry>, op: Op) {
    op.Add? && op.e.location == 0 && Accepted(list, op)
  }

  /** Some call of the run does; from then on the pool no longer holds a list. */
  predicate AddsZero(list: seq<Entry>, ops: seq<Op>)
    decreases |ops|
  {
    ops != [] && (PutsZero(list, ops[0]) || AddsZero(Step(list, ops[0]), ops[1..]))
  }

  lemma WithoutElsewhere(list: seq<Entry>, k: nat, location: nat)
    requires k < |list| && list[k].location != location
    ensures At(Without(list, k), location) == At(list, location)
  {
    var i := FirstAt(list, location);
    FirstAtUnique(Without(list, k), location, if k < i then i - 1 else i);
  }

  /** What happens to the other locations never shows at this one. */
  lemma StepElsewhere(list: seq<Entry>, op: Op, location: nat)
    requires LeavesAlone(op, location) && !PutsZero(list, op)
    ensures At(Step(list, op), location) == Advanced(At(list, location), op)
  {
    var r, i := Step(list, op), FirstAt(list, location);
    if Accepted(list, op) {
      match op
      case Add(e) => FirstAtUnique(r, location, i + 1);
      case Remove(a) => WithoutElsewhere(list, FirstAt(list, LowWord(a)), location);
      case Sync(a) => FirstAtUnique(r, location, i);
      case Tick => FirstAtUnique(r, location, i);
    }
  }

  function Ticks(ops: seq<Op>): nat {
    if ops == [] then 0 else (if ops[0].Tick? then 1 else 0) + Ticks(ops[1..])
  }

  function After(e: Entry, n: nat): Entry
    decreases n
  {
    if n == 0 then e else After(Ticked(e), n - 1)
  }

  ghost predicate AllLeaveAlone(ops: seq<Op>, location: nat) {
    forall i :: 0 <= i < |ops| ==> LeavesAlone(ops[i], location)
  }

  lemma AfterFirst(e: Entry, ops: seq<Op>)
    requires ops != []
    ensures After(e, Ticks(ops)) == After(if ops[0].Tick? then Ticked(e) else e, Ticks(ops[1..]))
  {
  }

  /** Over any run of calls elsewhere, only the number of ticks counts. */
  lemma {:induction false} RunElsewhere(list: seq<Entry>, ops: seq<Op>, location: nat)
    requires AllLeaveAlone(ops, location) && !AddsZero(list, ops) && At(list, location).Shown?
    ensures At(Run(list, ops), location) == Shown(After(At(list, location).entry, Ticks(ops)))
    decreases |ops|
  {
    if ops != [] {
      StepElsewhere(list, ops[0], location);
      assert AllLeaveAlone(ops[1..], location);
      AfterFirst(At(list, location).entry, ops);
      hide Step, LeavesAlone, At, PutsZero, Ticked, AllLeaveAlone, FirstAt, Accepted, After, Ticks;
      RunElsewhere(Step(list, ops[0]), ops[1..], location);
    }
  }

  /** Ticks move the countdown and the state on, and leave an entry's location, characters and lengths as they are. */
  lemma {:induction false} AfterKeepsItself(e: Entry, n: nat)
    ensures var r := After(e, n);
            && r.location == e.location && r.onChar == e.onChar && r.offChar == e.offChar
            && r.onLength == e.onLength && r.offLength == e.offLength
    decreases n
  {
    if n > 0 {
      AfterKeepsItself(Ticked(e), n - 1);
    }
  }

  /** The character that stands for an entry's state. */
  function Face(e: Entry): char {
    if e.on then e.onChar else e.offChar
  }

  // ---------------------------------------------------------------- what the calls do

  /** Which calls are refused: an add off the screen or to a full pool, and a name for a location no entry has. */
  lemma AcceptedIff(list: seq<Entry>, e: Entry, argument: nat)
    ensures Accepted(list, Add(e)) <==> e.location < 2000 && |list| < 2000
    ensures Accepted(list, Remove(argument)) <==> exists x :: x in list && x.location == argument % 65536
    ensures Accepted(list, Sync(argument)) <==>
              (exists x :: x in list && x.location == argument / 65536 % 65536) &&
              (exists x :: x in list && x.location == argument % 65536)
    ensures Accepted(list, Tick)
  {
    NamedIff(list, argument % 65536);
    NamedIff(list, argument / 65536 % 65536);
  }

  lemma NamedIff(list: seq<Entry>, location: nat)
    ensures FirstAt(list, location) < |list| <==> exists x :: x in list && x.location == location
  {
    var i := FirstAt(list, location);
    assert i < |list| ==> list[i] in list;
  }

  /** An entry added goes before all others, on, with its first length to run and all else as given. */
  lemma AddIs(list: seq<Entry>, e: Entry)
    requires e.location < 2000 && |list| < 2000
    ensures var r := Step(list, Add(e));
            && |r| == |list| + 1 && r[1..] == list
            && r[0] == Entry(e.location, e.onChar, e.offChar, e.onLength, e.offLength, e.onLength, true)
  {
  }

  /** A removal takes the first entry for its location, and the others keep their order. */
  lemma RemoveIs(list: seq<Entry>, argument: nat, i: nat)
    requires i < |list| && list[i].location == argument % 65536
    requires forall j :: 0 <= j < i ==> list[j].location != argument % 65536
    ensures var r := Step(list, Remove(argument));
            && |r| == |list| - 1 && (forall j :: 0 <= j < |r| ==> r[j] == if j < i then list[j] else list[j + 1])
  {
    hide FirstAt;
    FirstAtUnique(list, argument % 65536, i);
    assert Step(list, Remove(argument)) == list[..i] + list[i + 1..];
  }

  /** A sync gives the entry for the low word the rhythm of the one for the high word, which stays as it is. */
  lemma SyncIs(list: seq<Entry>, argument: nat)
    requires Accepted(list, Sync(argument))
    ensures var from, to := At(list, argument / 65536 % 65536), At(list, argument % 65536);
            var r := Step(list, Sync(argument));
            && from.Shown? && to.Shown?
            && At(r, argument / 65536 % 65536) == from
            && At(r, argument % 65536) == Shown(Entry(to.entry.location, to.entry.onChar, to.entry.offChar,
                 from.entry.onLength, from.entry.offLength, from.entry.countdown, from.entry.on))
  {
    var r, i, j := Step(list, Sync(argument)), FirstAt(list, HighWord(argument)), FirstAt(list, LowWord(argument));
    FirstAtUnique(r, HighWord(argument), i);
    FirstAtUnique(r, LowWord(argument), j);
  }

  // ---------------------------------------------------------------- the closed form

  /** How many ticks a length lasts: a word that reads as 0 or below -32768 when decremented lasts one. */
  function Lasts(length: nat): (n: nat)
    ensures n > 0
  {
    if 1 <= length <= SIGN then length else 1
  }

  function Period(e: Entry): (p: nat)
    ensures p > 0
  {
    Lasts(e.onLength) + Lasts(e.offLength)
  }

  /** `m` ticks into its period, the entry shows what it should and changes when it should. */
  ghost predicate InPhase(e: Entry, m: nat) {
    && m < Period(e) && Words(e)
    && e.on == (m < Lasts(e.onLength))
    && Lasts(e.countdown) == if e.on then Lasts(e.onLength) - m else Period(e) - m
  }

  lemma TickPhase(e: Entry, m: nat)
    requires InPhase(e, m)
    ensures InPhase(Ticked(e), if m + 1 < Period(e) then m + 1 else 0)
    ensures Period(Ticked(e)) == Period(e) && Lasts(Ticked(e).onLength) == Lasts(e.onLength)
  {
    CountdownLasts(e.countdown);
  }

  lemma CountdownLasts(c: nat)
    requires c < WORD
    ensures var d := (c + WORD - 1) % WORD;
            if Lasts(c) > 1 then 0 < d < SIGN && Lasts(d) == Lasts(c) - 1 else !(0 < d < SIGN)
  {
    if c == 0 {
      assert (c + WORD - 1) % WORD == WORD - 1;
    } else {
      assert (c + WORD - 1) % WORD == c - 1;
    }
  }

  /** Lengths from 1 to 32768 are what they say; 0 and anything longer last one tick. */
  lemma LengthsLast(e: Entry)
    ensures 1 <= e.onLength <= 32768 && 1 <= e.offLength <= 32768 ==>
              Lasts(e.onLength) == e.onLength && Period(e) == e.onLength + e.offLength
    ensures e.onLength == 0 || e.onLength > 32768 ==> Lasts(e.onLength) == 1
  {
  }

  /** How far into its period an entry is at a tick, and at the next. */
  lemma PhaseSteps(n: nat, period: nat)
    requires period > 0
    ensures Remainder(0, period) == 0
    ensures Remainder(n + 1, period) == if Remainder(n, period) + 1 < period then Remainder(n, period) + 1 else 0
  {
    var q, m := Quotient(n, period), Remainder(n, period);
    Division(n, period);
    DivisionOf(0, 0, period);
    hide Quotient, Remainder;
    if m + 1 < period {
      DivisionOf(q, m + 1, period);
    } else {
      assert period * (q + 1) == period * q + period;
      DivisionOf(q + 1, 0, period);
    }
  }

  lemma {:induction false} AfterInPhase(e: Entry, start: nat, n: nat)
    requires InPhase(e, Remainder(start, Period(e)))
    ensures Period(After(e, n)) == Period(e) && Lasts(After(e, n).onLength) == Lasts(e.onLength)
    ensures InPhase(After(e, n), Remainder(start + n, Period(e)))
    decreases n
  {
    hide Remainder;
    if n > 0 {
      TickPhase(e, Remainder(start, Period(e)));
      PhaseSteps(start, Period(e));
      AfterInPhase(Ticked(e), start + 1, n - 1);
    }
  }

  /** Left to itself from when it is started, an entry is on in the first part of every period. */
  lemma OnInFirstPart(e: Entry, n: nat)
    requires Words(e)
    ensures After(Started(e), n).on == (Remainder(n, Period(e)) < Lasts(e.onLength))
  {
    hide Remainder, After;
    PhaseSteps(0, Period(e));
    assert InPhase(Started(e), 0);
    AfterInPhase(Started(e), 0, n);
  }

  /**
   * A character just added is shown at tick `n` exactly when `n` falls in the first part of its period, whatever its
   * 16-bit lengths and whatever is added, removed or synchronised at other locations meanwhile, location 0 aside.
   */
  lemma BlinksOnSchedule(list: seq<Entry>, e: Entry, ops: seq<Op>)
    requires Words(e) && Accepted(list, Add(e)) && AllLeaveAlone(ops, e.location)
    requires !AddsZero(list, [Add(e)] + ops)
    ensures var r, on := At(Run(Step(list, Add(e)), ops), e.location), Ticks(ops) % Period(e) < Lasts(e.onLength);
            && r.Shown? && r.entry.on == on && Face(r.entry) == (if on then e.onChar else e.offChar)
            && r.entry.onLength == e.onLength && r.entry.offLength == e.offLength
  {
    assert ([Add(e)] + ops)[1..] == ops;
    AfterKeepsItself(Started(e), Ticks(ops));
    var added := Step(list, Add(e));
    assert At(added, e.location) == Shown(Started(e));
    assert Ticks(ops) % Period(e) == Remainder(Ticks(ops), Period(e));
    hide Step, At, FirstAt, Accepted, Lasts, Period, After, Remainder;
    RunElsewhere(added, ops, e.location);
    OnInFirstPart(e, Ticks(ops));
  }

  // ---------------------------------------------------------------- lockstep

  ghost predicate Lockstep(a: Entry, b: Entry) {
    a.onLength == b.onLength && a.offLength == b.offLength && a.countdown == b.countdown && a.on == b.on
  }

  lemma {:induction false} LockstepAfter(a: Entry, b: Entry, n: nat)
    requires Lockstep(a, b)
    ensures Lockstep(After(a, n), After(b, n))
    decreases n
  {
    if n > 0 {
      LockstepAfter(Ticked(a), Ticked(b), n - 1);
    }
  }

  /** Two locations synchronised blink together from then on, until a call names one of them again. */
  lemma SyncStaysInLockstep(list: seq<Entry>, argument: nat, ops: seq<Op>)
    requires Accepted(list, Sync(argument))
    requires AllLeaveAlone(ops, HighWord(argument)) && AllLeaveAlone(ops, LowWord(argument))
    requires !AddsZero(list, [Sync(argument)] + ops)
    ensures var r := Run(Step(list, Sync(argument)), ops);
            var a, b := At(r, HighWord(argument)), At(r, LowWord(argument));
            && a.Shown? && b.Shown? && Lockstep(a.entry, b.entry)
            && var was := At(list, LowWord(argument));
               was.Shown? && b.entry.onChar == was.entry.onChar && b.entry.offChar == was.entry.offChar
  {
    assert ([Sync(argument)] + ops)[1..] == ops;
    var from, to := HighWord(argument), LowWord(argument);
    var i, j, synced := FirstAt(list, from), FirstAt(list, to), Step(list, Sync(argument));
    FirstAtUnique(synced, from, i);
    FirstAtUnique(synced, to, j);
    RunElsewhere(synced, ops, from);
    RunElsewhere(synced, ops, to);
    AfterKeepsItself(At(synced, to).entry, Ticks(ops));
    LockstepAfter(At(synced, from).entry, At(synced, to).entry, Ticks(ops));
  }
}
