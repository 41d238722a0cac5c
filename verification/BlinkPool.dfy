/** The list threaded through a fixed pool of slots, as the program relinks it. */
module BlinkPool {
  import opened BlinkList

  /** A reference is 0, or one more than a slot's index. */
  datatype Node = Node(entry: Entry, next: nat)

  const FREED := Node(Entry(0, '\0', '\0', 0, 0, 0, false), 0)

  function Ref(order: seq<nat>, i: nat): nat {
    if i < |order| then order[i] + 1 else 0
  }

  /** From `head` the list visits the slots `order` names, once each, and ends; they are exactly the slots in use. */
  ghost predicate Threaded(nodes: seq<Node>, head: nat, order: seq<nat>) {
    && head == Ref(order, 0)
    && Within(order, |nodes|) && Distinct(order)
    && (forall i :: 0 <= i < |order| ==> LinksOn(nodes, order, i))
    && (forall s :: 0 <= s < |nodes| ==> (s in order <==> InUse(nodes, s)))
  }

  ghost predicate Within(order: seq<nat>, n: nat) {
    forall i :: 0 <= i < |order| ==> order[i] < n
  }

  ghost predicate Distinct(order: seq<nat>) {
    forall i, j :: 0 <= i < j < |order| ==> order[i] != order[j]
  }

  predicate LinksOn(nodes: seq<Node>, order: seq<nat>, i: nat) {
    i < |order| && order[i] < |nodes| && nodes[order[i]].next == Ref(order, i + 1)
  }

  predicate InUse(nodes: seq<Node>, slot: nat) {
    slot < |nodes| && nodes[slot].entry.location != 0
  }

  ghost predicate Listed(nodes: seq<Node>, head: nat) {
    exists order: seq<nat> :: Threaded(nodes, head, order)
  }

  function Entries(nodes: seq<Node>, order: seq<nat>): (r: seq<Entry>)
    requires Within(order, |nodes|)
    ensures |r| == |order|
  {
    seq(|order|, i requires 0 <= i < |order| => nodes[order[i]].entry)
  }

  /** A slot filled and put at the front of the list. */
  function Placed(nodes: seq<Node>, head: nat, slot: nat, e: Entry): seq<Node>
    requires slot < |nodes|
  {
    nodes[slot := Node(e, head)]
  }

  /** Adding to a free slot keeps the list threaded exactly when the location is not 0. */
  lemma AddThreadsIff(nodes: seq<Node>, head: nat, order: seq<nat>, slot: nat, e: Entry)
    requires Threaded(nodes, head, order) && slot < |nodes| && nodes[slot].entry.location == 0
    ensures Listed(Placed(nodes, head, slot, e), slot + 1) <==> e.location != 0
  {
    var placed := Placed(nodes, head, slot, e);
    if e.location != 0 {
      PlacedThreaded(nodes, head, order, slot, e);
    } else if Listed(placed, slot + 1) {
      var o :| Threaded(placed, slot + 1, o);
      HeadInUse(placed, slot + 1, o);
      assert false;
    }
  }

  lemma HeadInUse(nodes: seq<Node>, head: nat, order: seq<nat>)
    requires Threaded(nodes, head, order) && head > 0
    ensures InUse(nodes, head - 1)
  {
    assert order[0] in order;
  }

  lemma PlacedThreaded(nodes: seq<Node>, head: nat, order: seq<nat>, slot: nat, e: Entry)
    requires Threaded(nodes, head, order) && slot < |nodes| && nodes[slot].entry.location == 0
    requires e.location != 0
    ensures Threaded(Placed(nodes, head, slot, e), slot + 1, [slot] + order)
    ensures Entries(Placed(nodes, head, slot, e), [slot] + order) == [e] + Entries(nodes, order)
  {
    var placed, o := Placed(nodes, head, slot, e), [slot] + order;
    assert !InUse(nodes, slot);
    assert slot !in order;
    forall i | 0 <= i < |o|
      ensures LinksOn(placed, o, i)
    {
      assert i > 0 ==> LinksOn(nodes, order, i - 1);
    }
    forall s | 0 <= s < |placed|
      ensures s in o <==> InUse(placed, s)
    {
      assert s in o <==> s == slot || s in order;
      assert s != slot ==> InUse(placed, s) == InUse(nodes, s);
    }
  }

  /** An entry added at location 0 leaves its slot free for the next, which then links to itself. */
  lemma LocationZeroLoops(nodes: seq<Node>, head: nat, slot: nat, zero: Entry, e: Entry)
    requires slot < |nodes| && zero.location == 0
    requires forall s :: 0 <= s < slot ==> InUse(nodes, s)
    ensures var once := Placed(nodes, head, slot, zero);
            && !InUse(once, slot) && (forall s :: 0 <= s < slot ==> InUse(once, s))
            && Placed(once, slot + 1, slot, e)[slot].next == slot + 1
  {
    assert forall s :: 0 <= s < slot ==> InUse(Placed(nodes, head, slot, zero), s) == InUse(nodes, s);
  }

  /** Changing an entry in place, but not its location, moves nothing. */
  lemma ChangedThreaded(nodes: seq<Node>, head: nat, order: seq<nat>, i: nat, e: Entry)
    requires Threaded(nodes, head, order) && i < |order| && e.location == nodes[order[i]].entry.location
    ensures var r := nodes[order[i] := nodes[order[i]].(entry := e)];
            Threaded(r, head, order) && Entries(r, order) == Entries(nodes, order)[i := e]
  {
    var r := nodes[order[i] := nodes[order[i]].(entry := e)];
    assert forall j :: 0 <= j < |order| ==> LinksOn(r, order, j) == LinksOn(nodes, order, j);
    assert forall s :: 0 <= s < |r| ==> InUse(r, s) == InUse(nodes, s);
  }

  /** Unlinking the entry at a position and freeing its slot. */
  function Unlinked(nodes: seq<Node>, order: seq<nat>, i: nat): (r: seq<Node>)
    requires i < |order| && Within(order, |nodes|)
    ensures |r| == |nodes|
  {
    var relinked := if i == 0 then nodes else nodes[order[i - 1] := nodes[order[i - 1]].(next := Ref(order, i + 1))];
    relinked[order[i] := FREED]
  }

  lemma UnlinkedThreaded(nodes: seq<Node>, head: nat, order: seq<nat>, i: nat)
    requires Threaded(nodes, head, order) && i < |order|
    ensures var o := order[..i] + order[i + 1..];
            && Threaded(Unlinked(nodes, order, i), if i == 0 then Ref(order, 1) else head, o)
            && Entries(Unlinked(nodes, order, i), o) == Without(Entries(nodes, order), i)
  {
    var o, r := order[..i] + order[i + 1..], Unlinked(nodes, order, i);
    forall j | 0 <= j < |o|
      ensures LinksOn(r, o, j)
    {
      var k := if j < i then j else j + 1;
      assert LinksOn(nodes, order, k) && o[j] == order[k];
      assert order[k] != order[i] && (i > 0 && k != i - 1 ==> order[k] != order[i - 1]);
    }
    forall s | 0 <= s < |r|
      ensures s in o <==> InUse(r, s)
    {
      WithoutIn(order, i, s);
      assert s != order[i] ==> InUse(r, s) == InUse(nodes, s);
    }
    assert r[order[i]] == FREED;
    EntriesWithout(nodes, order, i);
  }

  lemma EntriesWithout(nodes: seq<Node>, order: seq<nat>, i: nat)
    requires Within(order, |nodes|) && Distinct(order) && i < |order|
    ensures Within(order[..i] + order[i + 1..], |nodes|)
    ensures Entries(Unlinked(nodes, order, i), order[..i] + order[i + 1..]) == Without(Entries(nodes, order), i)
  {
  }

  lemma WithoutIn(order: seq<nat>, i: nat, s: nat)
    requires Distinct(order) && i < |order|
    ensures s in order[..i] + order[i + 1..] <==> s in order && s != order[i]
  {
    var o := order[..i] + order[i + 1..];
    if s in order && s != order[i] {
      var j :| 0 <= j < |order| && order[j] == s;
      assert o[if j < i then j else j - 1] == s;
    }
  }

  // ---------------------------------------------------------------- when the pool is full

  /** Every slot is in use exactly when the list is as long as the pool. */
  lemma FullIff(nodes: seq<Node>, head: nat, order: seq<nat>)
    requires Threaded(nodes, head, order)
    ensures |order| <= |nodes|
    ensures (forall s :: 0 <= s < |nodes| ==> InUse(nodes, s)) <==> |order| == |nodes|
  {
    var used, all := Elements(order), Below(|nodes|);
    Cardinalities(order);
    assert used <= all;
    SubsetSize(used, all);
    assert (forall s :: 0 <= s < |nodes| ==> InUse(nodes, s)) <==> all <= used by {
      assert forall s :: 0 <= s < |nodes| ==> (s in used <==> InUse(nodes, s));
    }
  }

  function Elements(order: seq<nat>): set<nat> {
    set s | s in order
  }

  function Below(n: nat): (r: set<nat>)
    ensures forall s :: s in r <==> 0 <= s < n
    ensures |r| == n
  {
    if n == 0 then {} else Below(n - 1) + {n - 1}
  }

  lemma {:induction false} Cardinalities(order: seq<nat>)
    requires Distinct(order)
    ensures |Elements(order)| == |order|
  {
    if order != [] {
      Cardinalities(order[1..]);
      assert Elements(order) == Elements(order[1..]) + {order[0]};
    }
  }

  lemma {:induction false} SubsetSize(a: set<nat>, b: set<nat>)
    requires a <= b
    ensures |a| <= |b|
    ensures |a| == |b| <==> a == b
    decreases |a|
  {
    if a != {} {
      var x :| x in a;
      SubsetSize(a - {x}, b - {x});
      assert a == (a - {x}) + {x} && b == (b - {x}) + {x};
    }
  }

  // ---------------------------------------------------------------- the pool as states and steps

  /** The slots, the head, and the slots the list visits, which no code stores. */
  datatype Threads = Threads(nodes: seq<Node>, head: nat, order: seq<nat>)

  ghost predicate Sound(p: Threads) {
    |p.nodes| == CELLS && Threaded(p.nodes, p.head, p.order)
  }

  ghost function ListOf(p: Threads): seq<Entry>
    requires Sound(p)
  {
    Entries(p.nodes, p.order)
  }

  function FirstFreeSlot(nodes: seq<Node>): (slot: nat)
    ensures slot <= |nodes| && forall s :: 0 <= s < slot ==> nodes[s].entry.location != 0
    ensures slot < |nodes| ==> nodes[slot].entry.location == 0
  {
    if nodes == [] || nodes[0].entry.location == 0 then 0 else 1 + FirstFreeSlot(nodes[1..])
  }

  lemma FirstFreeSlotIs(nodes: seq<Node>, slot: nat)
    requires slot <= |nodes| && forall s :: 0 <= s < slot ==> InUse(nodes, s)
    requires slot < |nodes| ==> !InUse(nodes, slot)
    ensures FirstFreeSlot(nodes) == slot
  {
    var f := FirstFreeSlot(nodes);
    assert f < slot ==> !InUse(nodes, f);
    assert slot < f ==> InUse(nodes, slot);
  }

  /** An entry replaced where it stands. */
  function Changed(nodes: seq<Node>, slot: nat, e: Entry): seq<Node>
    requires slot < |nodes|
  {
    nodes[slot := nodes[slot].(entry := e)]
  }

  function AllTicked(nodes: seq<Node>, order: seq<nat>): (r: seq<Node>)
    ensures |r| == |nodes|
  {
    seq(|nodes|, s requires 0 <= s < |nodes| =>
      if s in order then nodes[s].(entry := Ticked(nodes[s].entry)) else nodes[s])
  }

  /** What a call or a tick does to the memory. */
  ghost function PoolStep(p: Threads, op: Op): Threads
    requires Sound(p)
  {
    if !Accepted(ListOf(p), op) then p
    else
      match op
      case Add(e) =>
        FreeSlotIfRoom(p);
        var slot := FirstFreeSlot(p.nodes);
        Threads(Placed(p.nodes, p.head, slot, Started(e)), slot + 1, [slot] + p.order)
      case Remove(a) =>
        var i := FirstAt(ListOf(p), LowWord(a));
        Threads(Unlinked(p.nodes, p.order, i), if i == 0 then Ref(p.order, 1) else p.head,
                p.order[..i] + p.order[i + 1..])
      case Sync(a) =>
        var i, j := FirstAt(ListOf(p), HighWord(a)), FirstAt(ListOf(p), LowWord(a));
        p.(nodes := Changed(p.nodes, p.order[j], Copied(ListOf(p)[i], ListOf(p)[j])))
      case Tick => p.(nodes := AllTicked(p.nodes, p.order))
  }

  lemma FreeSlotIfRoom(p: Threads)
    requires Sound(p)
    ensures |p.order| <= CELLS && (FirstFreeSlot(p.nodes) == CELLS <==> |p.order| == CELLS)
  {
    FullIff(p.nodes, p.head, p.order);
    if FirstFreeSlot(p.nodes) < CELLS {
      assert !InUse(p.nodes, FirstFreeSlot(p.nodes));
    } else {
      assert forall s :: 0 <= s < CELLS ==> InUse(p.nodes, s);
    }
  }

  lemma TickedThreaded(nodes: seq<Node>, head: nat, order: seq<nat>)
    requires Threaded(nodes, head, order)
    ensures Threaded(AllTicked(nodes, order), head, order)
    ensures Entries(AllTicked(nodes, order), order) == TickAll(Entries(nodes, order))
  {
    var r := AllTicked(nodes, order);
    assert forall j :: 0 <= j < |order| ==> LinksOn(r, order, j) == LinksOn(nodes, order, j);
    assert forall s :: 0 <= s < |r| ==> InUse(r, s) == InUse(nodes, s);
  }

  lemma SyncRefines(p: Threads, argument: nat)
    requires Sound(p) && Accepted(ListOf(p), Sync(argument))
    ensures var q := PoolStep(p, Sync(argument));
            Sound(q) && ListOf(q) == Step(ListOf(p), Sync(argument))
  {
    var i, j := FirstAt(ListOf(p), HighWord(argument)), FirstAt(ListOf(p), LowWord(argument));
    ChangedThreaded(p.nodes, p.head, p.order, j, Copied(ListOf(p)[i], ListOf(p)[j]));
  }

  lemma RemoveMemory(p: Threads, argument: nat)
    requires Sound(p)
    ensures var i := FirstAt(ListOf(p), LowWord(argument));
            if i < |p.order| then
              && Accepted(ListOf(p), Remove(argument)) && Within(p.order, CELLS)
              && p.nodes[p.order[i]].next == Ref(p.order, i + 1)
              && (i > 0 ==> p.order[i - 1] != p.order[i])
              && PoolStep(p, Remove(argument)) ==
                 Threads(Unlinked(p.nodes, p.order, i), if i == 0 then Ref(p.order, 1) else p.head,
                         p.order[..i] + p.order[i + 1..])
            else !Accepted(ListOf(p), Remove(argument)) && PoolStep(p, Remove(argument)) == p
  {
    var i := FirstAt(ListOf(p), LowWord(argument));
    assert i < |p.order| ==> LinksOn(p.nodes, p.order, i);
  }

  lemma WordsOf(argument: nat)
    ensures LowWord(argument / WORD) == HighWord(argument) && LowWord(argument % WORD) == LowWord(argument)
  {
  }

  lemma SyncMemory(p: Threads, argument: nat)
    requires Sound(p)
    ensures var i, j := FirstAt(ListOf(p), HighWord(argument)), FirstAt(ListOf(p), LowWord(argument));
            if i < |p.order| && j < |p.order| then
              && Accepted(ListOf(p), Sync(argument))
              && p.order[i] < CELLS && p.order[j] < CELLS
              && PoolStep(p, Sync(argument)) ==
                 p.(nodes := Changed(p.nodes, p.order[j], Copied(p.nodes[p.order[i]].entry, p.nodes[p.order[j]].entry)))
            else !Accepted(ListOf(p), Sync(argument)) && PoolStep(p, Sync(argument)) == p
  {
  }

  /** Every step is its step of the list, but for an entry taken at location 0, after which there is no list. */
  lemma PoolStepRefines(p: Threads, op: Op)
    requires Sound(p)
    ensures var q := PoolStep(p, op);
            if PutsZero(ListOf(p), op) then !Listed(q.nodes, q.head)
            else Sound(q) && ListOf(q) == Step(ListOf(p), op)
  {
    hide Threaded, Listed;
    if Accepted(ListOf(p), op) {
      match op
      case Add(e) =>
        FreeSlotIfRoom(p);
        var slot := FirstFreeSlot(p.nodes);
        AddThreadsIff(p.nodes, p.head, p.order, slot, Started(e));
        if e.location != 0 {
          PlacedThreaded(p.nodes, p.head, p.order, slot, Started(e));
        }
      case Remove(a) => UnlinkedThreaded(p.nodes, p.head, p.order, FirstAt(ListOf(p), LowWord(a)));
      case Sync(a) => SyncRefines(p, a);
      case Tick => TickedThreaded(p.nodes, p.head, p.order);
    }
  }

  /** After every step of the run there is a list: acyclic, and made of exactly the slots in use. */
  ghost predicate StaysListed(p: Threads, ops: seq<Op>)
    requires Sound(p)
    decreases |ops|
  {
    ops == [] ||
    var q := PoolStep(p, ops[0]);
    Listed(q.nodes, q.head) && (Sound(q) ==> StaysListed(q, ops[1..]))
  }

  lemma {:induction false} StaysListedIff(p: Threads, ops: seq<Op>)
    requires Sound(p)
    ensures StaysListed(p, ops) <==> !AddsZero(ListOf(p), ops)
    decreases |ops|
  {
    if ops != [] {
      PoolStepRefines(p, ops[0]);
      if !PutsZero(ListOf(p), ops[0]) {
        StaysListedIff(PoolStep(p, ops[0]), ops[1..]);
      }
    }
  }

  ghost function PoolRun(p: Threads, ops: seq<Op>): (r: Threads)
    requires Sound(p) && !AddsZero(ListOf(p), ops)
    ensures Sound(r)
    decreases |ops|
  {
    if ops == [] then p
    else
      PoolStepRefines(p, ops[0]);
      PoolRun(PoolStep(p, ops[0]), ops[1..])
  }

  lemma {:induction false} PoolRunRefines(p: Threads, ops: seq<Op>)
    requires Sound(p) && !AddsZero(ListOf(p), ops)
    ensures ListOf(PoolRun(p, ops)) == Run(ListOf(p), ops)
    decreases |ops|
  {
    if ops != [] {
      PoolStepRefines(p, ops[0]);
      PoolRunRefines(PoolStep(p, ops[0]), ops[1..]);
    }
  }

  /** All together: what the memory holds for a character added, at any tick and after any calls elsewhere. */
  lemma BlinksInThePool(p: Threads, e: Entry, ops: seq<Op>)
    requires Sound(p) && Words(e) && Accepted(ListOf(p), Add(e)) && AllLeaveAlone(ops, e.location)
    requires !AddsZero(ListOf(p), [Add(e)] + ops)
    ensures var r := At(ListOf(PoolRun(p, [Add(e)] + ops)), e.location);
            var on := BlinkList.Ticks(ops) % Period(e) < Lasts(e.onLength);
            && r.Shown? && r.entry.on == on && Face(r.entry) == (if on then e.onChar else e.offChar)
            && r.entry.onLength == e.onLength && r.entry.offLength == e.offLength
  {
    PoolRunRefines(p, [Add(e)] + ops);
    assert ([Add(e)] + ops)[1..] == ops;
    BlinksOnSchedule(ListOf(p), e, ops);
  }

  // ---------------------------------------------------------------- the program

  class Pool {
    const nodes: array<Node>
    var head: nat
    ghost var order: seq<nat>

    ghost predicate Valid()
      reads this, nodes
    {
      Sound(Memory())
    }

    ghost function Memory(): Threads
      reads this, nodes
    {
      Threads(nodes[..], head, order)
    }

    constructor ()
      ensures Valid() && ListOf(Memory()) == [] && fresh(nodes)
    {
      nodes := new Node[CELLS](_ => FREED);
      head := 0;
      order := [];
    }

    /** The first free slot, or 0. */
    method Malloc() returns (p: nat)
      requires nodes.Length == CELLS
      ensures p == if FirstFreeSlot(nodes[..]) == CELLS then 0 else FirstFreeSlot(nodes[..]) + 1
    {
      for i := 0 to CELLS
        invariant forall s :: 0 <= s < i ==> InUse(nodes[..], s)
      {
        if nodes[i].entry.location == 0 {
          FirstFreeSlotIs(nodes[..], i);
          return i + 1;
        }
      }
      FirstFreeSlotIs(nodes[..], CELLS);
      return 0;
    }

    method Free(p: nat)
      requires 0 < p <= nodes.Length
      modifies nodes
      ensures nodes[..] == old(nodes[..])[p - 1 := FREED]
    {
      nodes[p - 1] := FREED;
    }

    /** Walk the list for a location, comparing 16 bits of the argument. */
    method FindHelper(argument: nat) returns (p: nat)
      requires Valid()
      ensures p == Ref(order, FirstAt(ListOf(Memory()), LowWord(argument)))
    {
      var location := argument % WORD;
      p := head;
      ghost var i := 0;
      while p != 0
        invariant i <= |order| && p == Ref(order, i)
        invariant forall j :: 0 <= j < i ==> ListOf(Memory())[j].location != location
        decreases |order| - i
      {
        if nodes[p - 1].entry.location == location {
          FirstAtUnique(ListOf(Memory()), location, i);
          return;
        }
        assert LinksOn(nodes[..], order, i);
        p := nodes[p - 1].next;
        i := i + 1;
      }
      FirstAtUnique(ListOf(Memory()), location, i);
    }

    /** An add at location 0 is carried out like any other, and is the end of the list. */
    method IoctlAdd(e: Entry) returns (ok: bool)
      requires Valid()
      modifies this, nodes
      ensures ok == Accepted(ListOf(old(Memory())), Add(e))
      ensures Memory() == PoolStep(old(Memory()), Add(e))
      ensures Valid() <==> !PutsZero(ListOf(old(Memory())), Add(e))
    {
      hide Threaded;
      ghost var before := Memory();
      PoolStepRefines(before, Add(e));
      if e.location >= CELLS {
        return false;
      }
      FreeSlotIfRoom(before);
      var p := Malloc();
      if p == 0 {
        return false;
      }
      nodes[p - 1] := Node(e.(countdown := e.onLength, on := true), head);
      head := p;
      order := [p - 1] + order;
      assert nodes[..] == Placed(before.nodes, before.head, p - 1, Started(e));
      SoundIsListed(Memory());
      return true;
    }

    method IoctlRemove(argument: nat) returns (ok: bool)
      requires Valid()
      modifies this, nodes
      ensures Valid() && ok == Accepted(ListOf(old(Memory())), Remove(argument))
      ensures Memory() == PoolStep(old(Memory()), Remove(argument))
    {
      ghost var before := Memory();
      ghost var at := FirstAt(ListOf(before), LowWord(argument));
      PoolStepRefines(before, Remove(argument));
      RemoveMemory(before, argument);
      var p := FindHelper(argument);
      if p == 0 {
        return false;
      }
      var prev := FindPrev(p, at);
      hide Threaded, FirstAt, Distinct, PoolStep, Step, ListOf, Accepted, LowWord, Entries;
      if prev == 0 {
        head := nodes[p - 1].next;
      } else {
        nodes[prev - 1] := nodes[prev - 1].(next := nodes[p - 1].next);
      }
      Free(p);
      order := order[..at] + order[at + 1..];
      assert nodes[..] == Unlinked(before.nodes, before.order, at);
      return true;
    }

    /** Which link holds a reference to the entry: 0 for the head, else the entry before it. */
    method FindPrev(p: nat, ghost at: nat) returns (prev: nat)
      requires Valid() && at < |order| && p == order[at] + 1
      ensures prev == if at == 0 then 0 else order[at - 1] + 1
    {
      prev := 0;
      ghost var i := 0;
      assert LinksOn(nodes[..], order, at);
      while (if prev == 0 then head else nodes[prev - 1].next) != p
        invariant i <= at && prev == if i == 0 then 0 else order[i - 1] + 1
        invariant (if prev == 0 then head else nodes[prev - 1].next) == order[i] + 1
        decreases at - i
      {
        assert LinksOn(nodes[..], order, i);
        prev := if prev == 0 then head else nodes[prev - 1].next;
        i := i + 1;
      }
    }

    method IoctlSync(argument: nat) returns (ok: bool)
      requires Valid()
      modifies nodes
      ensures Valid() && ok == Accepted(ListOf(old(Memory())), Sync(argument))
      ensures Memory() == PoolStep(old(Memory()), Sync(argument))
    {
      ghost var before := Memory();
      PoolStepRefines(before, Sync(argument));
      SyncMemory(before, argument);
      assert Within(order, CELLS);
      WordsOf(argument);
      hide Threaded, FirstAt, PoolStep, Step, ListOf, Accepted, LowWord, HighWord;
      var from := FindHelper(argument / WORD);
      if from == 0 {
        return false;
      }
      var to := FindHelper(argument % WORD);
      if to == 0 {
        return false;
      }
      nodes[to - 1] := nodes[to - 1].(entry := Copied(nodes[from - 1].entry, nodes[to - 1].entry));
      return true;
    }

    method RtcTasklet()
      requires Valid()
      modifies nodes
      ensures Valid() && Memory() == PoolStep(old(Memory()), Tick)
    {
      ghost var before := Memory();
      PoolStepRefines(before, Tick);
      TickedEnds(before);
      hide Threaded, PoolStep, ListOf, Ticked, AllTicked, TickedUpTo;
      var p := head;
      ghost var i := 0;
      while p != 0
        invariant i <= |order| && p == Ref(order, i) && nodes[..] == TickedUpTo(before, i)
        decreases |order| - i
      {
        TickedOneMore(before, i);
        nodes[p - 1] := nodes[p - 1].(entry := Ticked(nodes[p - 1].entry));
        p := nodes[p - 1].next;
        i := i + 1;
      }
    }
  }

  lemma SoundIsListed(p: Threads)
    ensures Sound(p) ==> Listed(p.nodes, p.head)
  {
  }

  /** The memory when the tasklet has been over the first `i` entries. */
  ghost function TickedUpTo(p: Threads, i: nat): (r: seq<Node>)
    requires i <= |p.order|
    ensures |r| == |p.nodes|
  {
    AllTicked(p.nodes, p.order[..i])
  }

  lemma TickedEnds(p: Threads)
    requires Sound(p)
    ensures p.head == Ref(p.order, 0) && TickedUpTo(p, 0) == p.nodes
    ensures PoolStep(p, Tick) == p.(nodes := TickedUpTo(p, |p.order|))
  {
    assert p.order[..|p.order|] == p.order;
  }

  lemma TickedOneMore(p: Threads, i: nat)
    requires Sound(p) && i < |p.order|
    ensures var slot, r := p.order[i], TickedUpTo(p, i);
            && slot < |r| && r[slot] == p.nodes[slot] && r[slot].next == Ref(p.order, i + 1)
            && TickedUpTo(p, i + 1) == Changed(r, slot, Ticked(r[slot].entry))
  {
    var slot := p.order[i];
    assert LinksOn(p.nodes, p.order, i);
    assert slot !in p.order[..i];
    assert p.order[..i + 1] == p.order[..i] + [slot];
  }
}
