/** Consequences over whole runs: which context each handler resumes, what a bracketed call restores, who owns what. */
module ProcessRuns {
  import opened FileSystem
  import opened ProcessTable
  import opened ProcessStacks
  import opened ProcessRefinement

  ghost predicate InRange(es: seq<Event>, terminals: nat) {
    forall e :: e in es && e.Show? ==> e.terminal < terminals
  }

  /** Run the kernel's handlers; the effects are what the processor did after each. */
  function Run(t: Table, img: Image, es: seq<Event>): (r: (Table, seq<Effect>))
    requires Shape(t) && WellFormed(img) && InRange(es, |t.current|)
    ensures SameSize(t, r.0) && |r.1| == |es|
    decreases |es|
  {
    if es == [] then (t, [])
    else
      assert es[0] in es;
      var (t1, x) := Step(t, img, es[0]);
      var (t2, xs) := Run(t1, img, es[1..]);
      (t2, [x] + xs)
  }

  ghost function StackRun(s: Stacks, img: Image, es: seq<Event>): (r: (Stacks, seq<Effect>))
    requires Proper(s) && WellFormed(img) && InRange(es, |s.terms|)
    ensures Proper(r.0) && |r.0.terms| == |s.terms| && |r.0.timers| == |s.timers| && |r.1| == |es|
    decreases |es|
  {
    if es == [] then (s, [])
    else
      assert es[0] in es;
      StackStepProper(s, img, es[0]);
      var (s1, x) := StackStep(s, img, es[0]);
      var (s2, xs) := StackRun(s1, img, es[1..]);
      (s2, [x] + xs)
  }

  /** Over every interleaving the table represents the stacks, and every context resumed is the stack machine's. */
  lemma {:induction false} RunRefines(t: Table, s: Stacks, img: Image, es: seq<Event>)
    requires Represents(t, s) && WellFormed(img) && InRange(es, |s.terms|)
    ensures Represents(Run(t, img, es).0, StackRun(s, img, es).0)
    ensures Run(t, img, es).1 == StackRun(s, img, es).1
    decreases |es|
  {
    if es != [] {
      assert es[0] in es;
      StepSimulates(t, s, img, es[0]);
      StackStepProper(s, img, es[0]);
      hide Represents, Step, StackStep;
      RunRefines(Step(t, img, es[0]).0, StackStep(s, img, es[0]).0, img, es[1..]);
    }
  }

  // ---------------------------------------------------------------- parent chains

  /** The pid reached from `pid` by following `n` parent fields. */
  function Ancestor(t: Table, pid: nat, n: nat): (p: nat)
    requires Shape(t) && pid < |t.used|
    ensures p < |t.used|
  {
    if n == 0 then pid else t.pcbs[Ancestor(t, pid, n - 1)].parent
  }

  lemma {:induction false} AncestorIs(t: Table, s: Stacks, u: nat, n: nat)
    requires Represents(t, s) && u < |s.terms| && n < |s.terms[u]|
    ensures HasCall(s, u, |s.terms[u]| - 1 - n)
    ensures Ancestor(t, t.current[u], n) == Pid(s, u, |s.terms[u]| - 1 - n)
  {
    RunningSlot(t, s, u);
    hide Live, Current;
    if n > 0 {
      AncestorIs(t, s, u, n - 1);
      assert Linked(t, s, u, |s.terms[u]| - n);
    }
  }

  /** A terminal's chain of parents, from the process it runs to the shell it started with. */
  ghost function Chain(t: Table, u: nat, depth: nat): set<nat>
    requires Shape(t) && u < |t.current|
  {
    set n | 0 <= n <= depth :: Ancestor(t, t.current[u], n)
  }

  /** `depth[u]` parent links lead from the running process to shell `u`, and no fewer do; the chains are disjoint. */
  ghost predicate ChainsPartition(t: Table, depth: seq<nat>)
    requires Shape(t) && |depth| == |t.current|
  {
    && (forall u :: 0 <= u < |depth| ==> Ancestor(t, t.current[u], depth[u]) == u)
    && (forall u, n :: 0 <= u < |depth| && 0 <= n < depth[u] ==> Ancestor(t, t.current[u], n) >= |t.current|)
    && (forall u, v :: 0 <= u < v < |depth| ==> Chain(t, u, depth[u]) !! Chain(t, v, depth[v]))
    && (forall p :: 0 <= p < |t.used| ==>
          (t.used[p] <==> exists u :: 0 <= u < |depth| && p in Chain(t, u, depth[u])))
    && (forall u :: 0 <= u < |depth| ==> t.parentOf[u] == t.pcbs[t.current[u]].parent)
  }

  /** How many programs each terminal runs on top of its shell. */
  ghost function Depths(s: Stacks): (d: seq<nat>)
    requires Proper(s)
    ensures |d| == |s.terms| && forall u :: 0 <= u < |d| ==> d[u] == |s.terms[u]| - 1
  {
    assert forall u :: 0 <= u < |s.terms| ==> HasCall(s, u, 0);
    seq(|s.terms|, u requires 0 <= u < |s.terms| && HasCall(s, u, 0) => Depth(s, u))
  }

  ghost function Depth(s: Stacks, u: int): nat
    requires HasCall(s, u, 0)
  {
    |s.terms[u]| - 1
  }

  ghost predicate InTerminal(s: Stacks, u: int, p: nat) {
    exists i :: HasCall(s, u, i) && Pid(s, u, i) == p
  }

  lemma ChainIsStack(t: Table, s: Stacks, u: nat, p: nat)
    requires Represents(t, s) && u < |s.terms|
    ensures p in Chain(t, u, Depths(s)[u]) <==> InTerminal(s, u, p)
  {
    hide Ancestor, Linked, Current, Live;
    var d := Depths(s)[u];
    assert HasCall(s, u, 0);
    if p in Chain(t, u, d) {
      var n :| 0 <= n <= d && Ancestor(t, t.current[u], n) == p;
      AncestorIs(t, s, u, n);
    }
    if InTerminal(s, u, p) {
      var i :| HasCall(s, u, i) && Pid(s, u, i) == p;
      AncestorIs(t, s, u, d - i);
      assert Ancestor(t, t.current[u], d - i) == p;
    }
  }

  lemma ChainReachesShell(t: Table, s: Stacks, u: nat)
    requires Represents(t, s) && u < |s.terms|
    ensures var d := Depths(s)[u];
            && Ancestor(t, t.current[u], d) == u
            && forall n :: 0 <= n < d ==> Ancestor(t, t.current[u], n) >= |t.current|
  {
    var d := Depths(s)[u];
    assert HasCall(s, u, 0) && |s.terms| == |t.current|;
    hide Ancestor, Represents;
    AncestorIs(t, s, u, d);
    forall n | 0 <= n < d
      ensures Ancestor(t, t.current[u], n) >= |t.current|
    {
      AncestorAbove(t, s, u, n);
    }
  }

  lemma AncestorAbove(t: Table, s: Stacks, u: nat, n: nat)
    requires Represents(t, s) && u < |s.terms| && n + 1 < |s.terms[u]|
    ensures Ancestor(t, t.current[u], n) >= |t.current|
  {
    hide Ancestor, Linked, Current;
    AncestorIs(t, s, u, n);
    NotAShell(s, u, |s.terms[u]| - 1 - n);
  }

  lemma NotAShell(s: Stacks, u: nat, i: nat)
    requires Proper(s) && HasCall(s, u, i) && i > 0
    ensures Pid(s, u, i) >= |s.terms|
  {
    var p := Pid(s, u, i);
    assert p < |s.terms| ==> HasCall(s, p, 0);
  }

  lemma ChainsDisjoint(t: Table, s: Stacks, u: nat, v: nat)
    requires Represents(t, s) && u < v < |s.terms|
    ensures Chain(t, u, Depths(s)[u]) !! Chain(t, v, Depths(s)[v])
  {
    forall p | p in Chain(t, u, Depths(s)[u])
      ensures p !in Chain(t, v, Depths(s)[v])
    {
      ChainIsStack(t, s, u, p);
      ChainIsStack(t, s, v, p);
    }
  }

  lemma ChainsCover(t: Table, s: Stacks, p: nat)
    requires Represents(t, s) && p < |t.used|
    ensures t.used[p] <==> exists u :: 0 <= u < |s.terms| && p in Chain(t, u, Depths(s)[u])
  {
    forall u | 0 <= u < |s.terms|
      ensures p in Chain(t, u, Depths(s)[u]) <==> InTerminal(s, u, p)
    {
      ChainIsStack(t, s, u, p);
    }
    if Live(s, p) {
      var u, i :| HasCall(s, u, i) && Pid(s, u, i) == p;
      assert InTerminal(s, u, p);
    }
    if u :| 0 <= u < |s.terms| && InTerminal(s, u, p) {
      var i :| HasCall(s, u, i) && Pid(s, u, i) == p;
    }
  }

  /** The arrays and the parent fields describe disjoint chains that cover exactly the slots in use. */
  lemma TableChains(t: Table, s: Stacks)
    requires Represents(t, s)
    ensures ChainsPartition(t, Depths(s))
  {
    var depth := Depths(s);
    forall u | 0 <= u < |depth|
      ensures Ancestor(t, t.current[u], depth[u]) == u
      ensures forall n :: 0 <= n < depth[u] ==> Ancestor(t, t.current[u], n) >= |t.current|
      ensures t.parentOf[u] == t.pcbs[t.current[u]].parent
    {
      ChainReachesShell(t, s, u);
      assert Current(t, s, u);
    }
    forall u, v | 0 <= u < v < |depth|
      ensures Chain(t, u, depth[u]) !! Chain(t, v, depth[v])
    {
      ChainsDisjoint(t, s, u, v);
    }
    forall p | 0 <= p < |t.used|
      ensures t.used[p] <==> exists u :: 0 <= u < |depth| && p in Chain(t, u, depth[u])
    {
      ChainsCover(t, s, p);
    }
  }

  // ---------------------------------------------------------------- brackets

  /** Terminal `u` never runs fewer than `d` programs during the run. */
  ghost predicate KeepsDepth(s: Stacks, img: Image, es: seq<Event>, u: nat, d: nat)
    requires Proper(s) && WellFormed(img) && InRange(es, |s.terms|) && u < |s.terms|
    decreases |es|
  {
    |s.terms[u]| >= d &&
    (es == [] ||
     (assert es[0] in es;
      StackStepProper(s, img, es[0]);
      KeepsDepth(StackStep(s, img, es[0]).0, img, es[1..], u, d)))
  }

  lemma StepKeepsPrefix(s: Stacks, img: Image, e: Event, u: nat, d: nat)
    requires Proper(s) && WellFormed(img) && (e.Show? ==> e.terminal < |s.terms|) && u < |s.terms|
    requires d <= |s.terms[u]|
    ensures var s' := StackStep(s, img, e).0;
            |s'.terms| == |s.terms| && (d <= |s'.terms[u]| ==> s'.terms[u][..d] == s.terms[u][..d])
  {
  }

  lemma {:induction false} PrefixKept(s: Stacks, img: Image, es: seq<Event>, u: nat, d: nat)
    requires Proper(s) && WellFormed(img) && InRange(es, |s.terms|) && u < |s.terms|
    requires KeepsDepth(s, img, es, u, d)
    ensures var s' := StackRun(s, img, es).0;
            |s'.terms[u]| >= d && s'.terms[u][..d] == s.terms[u][..d]
    decreases |es|
  {
    if es != [] {
      assert es[0] in es;
      StackStepProper(s, img, es[0]);
      StepKeepsPrefix(s, img, es[0], u, d);
      hide StackStep;
      PrefixKept(StackStep(s, img, es[0]).0, img, es[1..], u, d);
    }
  }

  /**
   * A run that starts with `c` pushed on the terminal on screen, never goes below it there, and comes back to it with
   * that terminal running.
   */
  ghost predicate Bracketed(s: Stacks, img: Image, c: Call, es: seq<Event>)
    requires Proper(s) && WellFormed(img) && InRange(es, |s.terms|)
  {
    var s1 := Push(s, c);
    var d := |s1.terms[s.shown]|;
    && Proper(s1)
    && KeepsDepth(s1, img, es, s.shown, d)
    && var s2 := StackRun(s1, img, es).0;
       s2.running == s.shown && |s2.terms[s.shown]| == d
  }

  lemma StackBracket(s: Stacks, img: Image, c: Call, es: seq<Event>)
    requires Proper(s) && WellFormed(img) && InRange(es, |s.terms|) && Bracketed(s, img, c, es)
    ensures var s2 := StackRun(Push(s, c), img, es).0;
            && s2.running == s.shown && |s2.terms[s.shown]| > 1 && Top(s2, s.shown) == c
            && Pop(s2).terms[s.shown] == s.terms[s.shown]
  {
    assert HasCall(s, s.shown, 0);
    var d := |s.terms[s.shown]|;
    PrefixKept(Push(s, c), img, es, s.shown, d + 1);
    var calls := StackRun(Push(s, c), img, es).0.terms[s.shown];
    assert calls == calls[..d + 1] == s.terms[s.shown] + [c];
  }

  /**
   * A program started on the terminal on screen, anything at all meanwhile on every terminal, and the matching halt:
   * the terminal's entries are back, the slot is free, and the pair resumed is the one the execute saved.
   */
  lemma BracketRestores(t: Table, s: Stacks, img: Image, fname: seq<char>, here: Context, es: seq<Event>)
    requires Represents(t, s) && WellFormed(img) && InRange(es, |s.terms|)
    requires ExecuteOutcome(t.used, img, fname).Launched?
    requires Bracketed(s, img, Call(FirstFree(t.used), here, ExecuteOutcome(t.used, img, fname).entry), es)
    ensures var u, t2 := t.visible, Run(ExecuteStep(t, img, fname, here).0, img, es).0;
            var (t3, effect) := HaltStep(t2);
            && t2.scheduled == u && t2.current[u] == FirstFree(t.used)
            && t3.current[u] == t.current[u] && t3.parentOf[u] == t.parentOf[u]
            && !t3.used[FirstFree(t.used)]
            && effect == Resumed(here)
  {
    var c := Call(FirstFree(t.used), here, ExecuteOutcome(t.used, img, fname).entry);
    var t1, s1 := ExecuteStep(t, img, fname, here).0, Push(s, c);
    LaunchSimulates(t, s, c.pid, c.entry, here);
    RunRefines(t1, s1, img, es);
    var t2, s2 := Run(t1, img, es).0, StackRun(s1, img, es).0;
    StackBracket(s, img, c, es);
    HaltUndoes(t, s, t2, s2, img, c);
  }

  /** The halt at the end of a bracket, given the stacks at both ends. */
  lemma HaltUndoes(t: Table, s: Stacks, t2: Table, s2: Stacks, img: Image, c: Call)
    requires Represents(t, s) && Represents(t2, s2) && |t.used| == |t2.used| && |s.terms| == |s2.terms|
    requires WellFormed(img) && s2.running == s.shown
    requires |s2.terms[s.shown]| > 1 && Top(s2, s.shown) == c
    requires Pop(s2).terms[s.shown] == s.terms[s.shown]
    ensures var u := t.visible;
            var (t3, effect) := HaltStep(t2);
            && t2.scheduled == u && t2.current[u] == c.pid && !t3.used[c.pid] && effect == Resumed(c.resume)
            && t3.current[u] == t.current[u] && t3.parentOf[u] == t.parentOf[u]
  {
    RunningSlot(t2, s2, s.shown);
    HaltSimulates(t2, s2, img);
    SameParent(t, s, HaltStep(t2).0, Pop(s2), s.shown);
  }

  /** Equal stacks give equal entries in the per-terminal arrays. */
  lemma SameParent(t: Table, s: Stacks, t': Table, s': Stacks, u: nat)
    requires Represents(t, s) && Represents(t', s') && u < |s.terms| == |s'.terms|
    requires s.terms[u] == s'.terms[u]
    ensures t'.current[u] == t.current[u] && t'.parentOf[u] == t.parentOf[u]
  {
    assert Current(t, s, u) && Current(t', s', u);
    var d := |s.terms[u]|;
    assert HasCall(s, u, d - 1) && HasCall(s', u, d - 1);
    assert Linked(t, s, u, d - 1) && Linked(t', s', u, d - 1);
    assert d > 1 ==> HasCall(s, u, d - 2) && Pid(s, u, d - 2) == Pid(s', u, d - 2);
  }

  // ---------------------------------------------------------------- launches

  /** The call starts a program, which is filed under terminal `u`. */
  predicate LaunchesOn(t: Table, img: Image, e: Event, u: nat)
    requires WellFormed(img)
  {
    e.Execute? && ExecuteOutcome(t.used, img, e.fname).Launched? && t.visible == u
  }

  /** A program is started, if any is, while the scheduled terminal is on screen. */
  predicate Guard(t: Table, img: Image, e: Event)
    requires WellFormed(img)
  {
    e.Execute? && ExecuteOutcome(t.used, img, e.fname).Launched? ==> t.visible == t.scheduled
  }

  // ---------------------------------------------------------------- the timer

  function Ticks(es: seq<Event>): nat {
    if es == [] then 0 else (if es[0].Tick? then 1 else 0) + Ticks(es[1..])
  }

  /** How many ticks until terminal `u` runs, counting round from terminal `r`. */
  function Distance(r: nat, u: nat, n: nat): nat
    requires r < n && u < n
  {
    if r <= u then u - r else n - r + u
  }

  lemma NextTerminal(r: nat, n: nat)
    requires r < n
    ensures (r + 1) % n == if r + 1 == n then 0 else r + 1
  {
  }

  /** The pair a tick that comes to terminal `u` will load. */
  function Waiting(t: Table, u: nat): Context
    requires Shape(t) && u < |t.current|
  {
    t.pcbs[t.current[u]].preempted
  }

  /** The pair the slot held that was last taken for a program filed under `u` during the run. */
  datatype Taken = None | Stale(pair: Context)

  function LastTaken(t: Table, img: Image, es: seq<Event>, u: nat): Taken
    requires Shape(t) && WellFormed(img) && InRange(es, |t.current|)
    decreases |es|
  {
    if es == [] then None
    else
      assert es[0] in es;
      var later := LastTaken(Step(t, img, es[0]).0, img, es[1..], u);
      if later.Stale? then later
      else if LaunchesOn(t, img, es[0], u) then Stale(t.pcbs[FirstFree(t.used)].preempted)
      else None
  }

  function PairOr(taken: Taken, pair: Context): Context {
    if taken.Stale? then taken.pair else pair
  }

  /** While another terminal runs, only a launch onto `u` changes what waits there, and the ticks come nearer. */
  lemma StepWaits(t: Table, s: Stacks, img: Image, e: Event, u: nat)
    requires Represents(t, s) && WellFormed(img) && (e.Show? ==> e.terminal < |s.terms|)
    requires u < |t.current| && t.scheduled != u
    ensures var t', n := Step(t, img, e).0, |t.current|;
            && Waiting(t', u) ==
               (if LaunchesOn(t, img, e, u) then t.pcbs[FirstFree(t.used)].preempted else Waiting(t, u))
            && Distance(t'.scheduled, u, n) == Distance(t.scheduled, u, n) - (if e.Tick? then 1 else 0)
  {
    match e
    case Execute(fname, here) =>
      var o := ExecuteOutcome(t.used, img, fname);
      if o.Launched? {
        LaunchWaits(t, o.pid, o.entry, here, u);
      }
    case Halt => HaltWaits(t, u);
    case Tick(here) => TickWaits(t, s, img, here, u);
    case Show(terminal) =>
  }

  lemma LaunchWaits(t: Table, pid: nat, entry: seq<char>, here: Context, u: nat)
    requires Shape(t) && pid < |t.used| && u < |t.current|
    ensures Waiting(Launch(t, pid, entry, here), u) == if t.visible == u then t.pcbs[pid].preempted else Waiting(t, u)
  {
  }

  lemma HaltWaits(t: Table, u: nat)
    requires Shape(t) && u < |t.current| && u != t.scheduled
    ensures Waiting(HaltStep(t).0, u) == Waiting(t, u)
  {
  }

  lemma TickWaits(t: Table, s: Stacks, img: Image, here: Context, u: nat)
    requires Represents(t, s) && WellFormed(img) && u < |t.current| && u != t.scheduled
    ensures var t', n := TickStep(t, img, here).0, |t.current|;
            Waiting(t', u) == Waiting(t, u) && Distance(t'.scheduled, u, n) == Distance(t.scheduled, u, n) - 1
  {
    RunningSlot(t, s, u);
    NextTerminal(t.scheduled, |t.current|);
    hide ExecuteStep, WellFormed, Proper, Linked, Current, Live;
  }

  lemma FirstTaken(t: Table, img: Image, es: seq<Event>, u: nat)
    requires Shape(t) && WellFormed(img) && InRange(es, |t.current|) && es != []
    ensures es[0] in es && (LaunchesOn(t, img, es[0], u) ==> FirstFree(t.used) < |t.used|)
    ensures LastTaken(t, img, es, u) ==
            var later := LastTaken(Step(t, img, es[0]).0, img, es[1..], u);
            if later.Stale? then later
            else if LaunchesOn(t, img, es[0], u) then Stale(t.pcbs[FirstFree(t.used)].preempted)
            else None
  {
  }

  /** Until its turn comes, a terminal keeps the pair it was preempted with, or gets the one of the slot last taken. */
  lemma {:induction false} UntilTurn(t: Table, s: Stacks, img: Image, es: seq<Event>, u: nat)
    requires Represents(t, s) && WellFormed(img) && InRange(es, |t.current|) && u < |t.current|
    requires Ticks(es) < Distance(t.scheduled, u, |t.current|)
    ensures var t', n := Run(t, img, es).0, |t.current|;
            && Distance(t'.scheduled, u, n) == Distance(t.scheduled, u, n) - Ticks(es)
            && Waiting(t', u) == PairOr(LastTaken(t, img, es, u), Waiting(t, u))
    decreases |es|
  {
    if es != [] {
      assert es[0] in es;
      StepWaits(t, s, img, es[0], u);
      StepSimulates(t, s, img, es[0]);
      FirstTaken(t, img, es, u);
      hide Step, StackStep, Represents, LaunchesOn, Waiting, Distance, LastTaken, WellFormed, FirstFree;
      UntilTurn(Step(t, img, es[0]).0, StackStep(s, img, es[0]).0, img, es[1..], u);
    }
  }

  /** The terminal after `u` is a round less one tick away from it. */
  lemma RoundAhead(u: nat, n: nat)
    requires u < n && n >= 2
    ensures Distance((u + 1) % n, u, n) == n - 1
  {
    NextTerminal(u, n);
  }

  lemma OneAhead(r: nat, u: nat, n: nat)
    requires r < n && u < n && Distance(r, u, n) == 1
    ensures r != u && u == (r + 1) % n
  {
    NextTerminal(r, n);
  }

  /** The tick that leaves a terminal saves the pair that will wait there. */
  lemma TickLeaves(t: Table, s: Stacks, img: Image, here: Context)
    requires Represents(t, s) && WellFormed(img) && |t.current| >= 2
    ensures var t', n := TickStep(t, img, here).0, |t.current|;
            && Represents(t', StackStep(s, img, Tick(here)).0)
            && Distance(t'.scheduled, t.scheduled, n) == n - 1 && Waiting(t', t.scheduled) == here
  {
    RoundAhead(t.scheduled, |t.current|);
    TickSimulates(t, s, img, here);
    assert (t.scheduled + 1) % |t.current| == TickStep(t, img, here).0.scheduled;
  }

  /** The tick that comes to a terminal loads the pair that waits there, and saves its own elsewhere. */
  lemma TickComes(t: Table, s: Stacks, img: Image, here: Context, u: nat)
    requires Represents(t, s) && WellFormed(img) && u < |t.current| && Distance(t.scheduled, u, |t.current|) == 1
    ensures TickStep(t, img, here).0.scheduled == u && TickStep(t, img, here).1 == Resumed(Waiting(t, u))
  {
    OneAhead(t.scheduled, u, |t.current|);
    RunningSlot(t, s, u);
  }

  /**
   * A tick, a round of the other terminals with anything at all in it, and the tick that comes back. The context
   * resumed is the one saved, unless a program was started meanwhile with this terminal on screen: then it is
   * whatever pair the new program's slot held.
   */
  lemma ResumesExactly(t: Table, s: Stacks, img: Image, here: Context, es: seq<Event>, last: Context)
    requires Represents(t, s) && WellFormed(img) && InRange(es, |t.current|)
    requires |t.current| >= 2 && Ticks(es) == |t.current| - 2
    ensures var t1 := TickStep(t, img, here).0;
            var t2 := Run(t1, img, es).0;
            && TickStep(t2, img, last).0.scheduled == t.scheduled
            && TickStep(t2, img, last).1 == Resumed(PairOr(LastTaken(t1, img, es, t.scheduled), here))
  {
    hide TickStep, StackStep, Represents, Waiting, Distance, LastTaken, Run, StackRun, WellFormed, Shape, InRange;
    SameSlots(t, s);
    var t1, s1 := TickStep(t, img, here).0, StackStep(s, img, Tick(here)).0;
    TickLeaves(t, s, img, here);
    UntilTurn(t1, s1, img, es, t.scheduled);
    SameSlots(t1, s1);
    RunRefines(t1, s1, img, es);
    TickComes(Run(t1, img, es).0, StackRun(s1, img, es).0, img, last, t.scheduled);
  }

  lemma SameSlots(t: Table, s: Stacks)
    requires Represents(t, s)
    ensures Shape(t) && Proper(s) && |s.terms| == |t.current| && t.scheduled < |t.current|
  {
  }

  /** So it comes back to itself exactly when nothing was started onto it, or the slot taken held that very pair. */
  lemma ResumesWherePreemptedIff(t: Table, s: Stacks, img: Image, here: Context, es: seq<Event>, last: Context)
    requires Represents(t, s) && WellFormed(img) && InRange(es, |t.current|)
    requires |t.current| >= 2 && Ticks(es) == |t.current| - 2
    ensures var t1 := TickStep(t, img, here).0;
            (TickStep(Run(t1, img, es).0, img, last).1 == Resumed(here) <==>
             LastTaken(t1, img, es, t.scheduled) in {None, Stale(here)})
  {
    ResumesExactly(t, s, img, here, es, last);
  }

  /** Nothing is taken for a terminal exactly when no program is started while it is on screen. */
  ghost predicate NoneStartedOn(t: Table, img: Image, es: seq<Event>, u: nat)
    requires Shape(t) && WellFormed(img) && InRange(es, |t.current|)
    decreases |es|
  {
    es == [] ||
    (assert es[0] in es; !LaunchesOn(t, img, es[0], u) && NoneStartedOn(Step(t, img, es[0]).0, img, es[1..], u))
  }

  lemma {:induction false} NoneTakenIff(t: Table, img: Image, es: seq<Event>, u: nat)
    requires Shape(t) && WellFormed(img) && InRange(es, |t.current|)
    ensures LastTaken(t, img, es, u).None? <==> NoneStartedOn(t, img, es, u)
    decreases |es|
  {
    if es != [] {
      assert es[0] in es;
      NoneTakenIff(Step(t, img, es[0]).0, img, es[1..], u);
    }
  }

  // ---------------------------------------------------------------- memory

  /** The 4 MB of physical memory that hold a process's program, and the 8 KB of its kernel stack and PCB. */
  ghost predicate InProgram(pid: nat, address: int) {
    MB8 + MB4 * pid <= address < MB8 + MB4 * (pid + 1)
  }

  ghost predicate InKernelStack(pid: nat, address: int) {
    KernelStackTop(pid) - KB8 <= address < KernelStackTop(pid)
  }

  lemma FrameIs(pid: nat)
    requires pid < 128
    ensures FrameOf(pid) == 2 + pid
  {
  }

  lemma SlotsShareNoMemory(p: nat, q: nat, address: int)
    requires p < 128 && q < 128 && p != q
    ensures InProgram(p, address) ==> FrameOf(p) == address / MB4 && !InProgram(q, address)
    ensures InKernelStack(p, address) ==> MB4 <= address < MB8 && !InKernelStack(q, address)
  {
    FrameIs(p);
  }

  /** The page and the kernel stack in place are those of the process the scheduled terminal runs. */
  predicate InPlace(t: Table)
    requires Shape(t)
  {
    t.frame == 2 + t.current[t.scheduled] && t.esp0 == MB8 - KB8 * t.current[t.scheduled]
  }

  /** Then it is live, and no other live process shares them. */
  lemma AddressSpace(t: Table, s: Stacks, q: nat, address: int)
    requires Represents(t, s) && InPlace(t) && q < |t.used| && t.used[q] && q != t.current[t.scheduled]
    ensures var p := t.current[t.scheduled];
            && t.used[p]
            && (InProgram(p, address) ==> address / MB4 == t.frame && !InProgram(q, address))
            && (InKernelStack(p, address) ==> t.esp0 - KB8 <= address < t.esp0 && !InKernelStack(q, address))
  {
    var p := t.current[t.scheduled];
    RunningSlot(t, s, t.scheduled);
    TopSlot(s, s.running);
    FrameIs(p);
    SlotsShareNoMemory(p, q, address);
  }

  /** Whether the right memory is in place after an event, `before` being whether it was. */
  predicate PlacedAfter(t: Table, img: Image, e: Event, before: bool)
    requires Shape(t) && WellFormed(img)
  {
    match e
    case Execute(fname, _) =>
      if ExecuteOutcome(t.used, img, fname).Launched? then t.visible == t.scheduled else before
    case Halt => if t.current[t.scheduled] < |t.current| then before else true
    case Tick(_) => true
    case Show(_) => before
  }

  lemma StepInPlaceIff(t: Table, s: Stacks, img: Image, e: Event)
    requires Represents(t, s) && WellFormed(img) && (e.Show? ==> e.terminal < |s.terms|)
    ensures InPlace(Step(t, img, e).0) <==> PlacedAfter(t, img, e, InPlace(t))
  {
    match e
    case Execute(fname, here) =>
      var o := ExecuteOutcome(t.used, img, fname);
      if o.Launched? {
        LaunchInPlaceIff(t, s, o.pid, o.entry, here);
      }
    case Halt => HaltInPlace(t);
    case Tick(here) => TickInPlace(t, s, img, here);
    case Show(terminal) =>
  }

  /** A launch puts the new program's memory in place, and files it under the terminal on screen. */
  lemma LaunchInPlaceIff(t: Table, s: Stacks, pid: nat, entry: seq<char>, here: Context)
    requires Represents(t, s) && pid < |t.used| && !t.used[pid]
    ensures InPlace(Launch(t, pid, entry, here)) <==> t.visible == t.scheduled
  {
    FreeSlot(t, s, pid);
    FrameIs(pid);
    hide FrameOf, Represents;
  }

  lemma HaltInPlace(t: Table)
    requires Shape(t)
    ensures InPlace(HaltStep(t).0) <==> (t.current[t.scheduled] < |t.current| ==> InPlace(t))
  {
    FrameIs(t.parentOf[t.scheduled]);
    hide FrameOf;
  }

  lemma TickInPlace(t: Table, s: Stacks, img: Image, here: Context)
    requires Represents(t, s) && WellFormed(img)
    ensures InPlace(TickStep(t, img, here).0)
  {
    NextTerminal(t.scheduled, |t.current|);
    FrameIs(t.current[(t.scheduled + 1) % |t.current|]);
    hide FrameOf, ExecuteStep, WellFormed, Proper, Linked, Current, Live;
  }

  /** The same over a run: what decides is its last launch, tick or halt of a program. */
  predicate PlacedAtEnd(t: Table, img: Image, es: seq<Event>, before: bool)
    requires Shape(t) && WellFormed(img) && InRange(es, |t.current|)
    decreases |es|
  {
    if es == [] then before
    else
      assert es[0] in es;
      PlacedAtEnd(Step(t, img, es[0]).0, img, es[1..], PlacedAfter(t, img, es[0], before))
  }

  lemma {:induction false} InPlaceIff(t: Table, s: Stacks, img: Image, es: seq<Event>)
    requires Represents(t, s) && WellFormed(img) && InRange(es, |t.current|)
    ensures InPlace(Run(t, img, es).0) <==> PlacedAtEnd(t, img, es, InPlace(t))
    decreases |es|
  {
    if es != [] {
      assert es[0] in es;
      StepInPlaceIff(t, s, img, es[0]);
      StepSimulates(t, s, img, es[0]);
      hide Step, StackStep, Represents, PlacedAfter, InPlace;
      InPlaceIff(Step(t, img, es[0]).0, StackStep(s, img, es[0]).0, img, es[1..]);
    }
  }

  /** The right memory is in place after every step of the run. */
  ghost predicate StaysInPlace(t: Table, img: Image, es: seq<Event>)
    requires Shape(t) && WellFormed(img) && InRange(es, |t.current|)
    decreases |es|
  {
    es == [] ||
    (assert es[0] in es; InPlace(Step(t, img, es[0]).0) && StaysInPlace(Step(t, img, es[0]).0, img, es[1..]))
  }

  /** Every program of the run is started while the scheduled terminal is on screen. */
  ghost predicate Guarded(t: Table, img: Image, es: seq<Event>)
    requires Shape(t) && WellFormed(img) && InRange(es, |t.current|)
    decreases |es|
  {
    es == [] || (assert es[0] in es; Guard(t, img, es[0]) && Guarded(Step(t, img, es[0]).0, img, es[1..]))
  }

  lemma {:induction false} StaysInPlaceIff(t: Table, s: Stacks, img: Image, es: seq<Event>)
    requires Represents(t, s) && WellFormed(img) && InRange(es, |t.current|) && InPlace(t)
    ensures StaysInPlace(t, img, es) <==> Guarded(t, img, es)
    decreases |es|
  {
    if es != [] {
      assert es[0] in es;
      StepInPlaceIff(t, s, img, es[0]);
      StepSimulates(t, s, img, es[0]);
      assert PlacedAfter(t, img, es[0], true) <==> Guard(t, img, es[0]);
      hide Step, StackStep, Represents, PlacedAfter, InPlace, Guard;
      if InPlace(Step(t, img, es[0]).0) {
        StaysInPlaceIff(Step(t, img, es[0]).0, StackStep(s, img, es[0]).0, img, es[1..]);
      }
    }
  }
}
