/** Boot: `kernel_main` starts the first shell, and the first timer ticks start one on each other terminal. */
module ProcessBoot {
  import opened Bytes
  import opened FileSystem
  import opened ProcessTable
  import opened ProcessStacks
  import opened ProcessRefinement
  import opened ProcessRuns

  /** The table as linked into the kernel image; slots hold no process yet, so what their PCBs hold is left open. */
  ghost predicate PoweredOn(t: Table) {
    && Shape(t)
    && (forall p :: 0 <= p < |t.used| ==> !t.used[p])
    && (forall u :: 0 <= u < |t.current| ==> t.current[u] == u && t.parentOf[u] == u && !t.started[u])
    && t.scheduled == 0 && t.visible == 0 && !t.booted
  }

  /** The shell is an executable file of the image. */
  ghost predicate ShellLoads(img: Image)
    requires WellFormed(img)
  {
    var k := LastNamed(img.dentries, CString(SHELL));
    k >= 0 && img.dentries[k].inode < |img.inodes| && Stored(img, img.dentries[k].inode)[..4] == ELF_MAGIC
  }

  function ShellEntry(img: Image): seq<char>
    requires WellFormed(img) && ShellLoads(img)
  {
    Stored(img, img.dentries[LastNamed(img.dentries, CString(SHELL))].inode)[ENTRY_OFFSET..ENTRY_OFFSET + 4]
  }

  /** `kernel_main` marks the first terminal started and executes its shell. */
  function Main(t: Table, img: Image): Table
    requires PoweredOn(t) && WellFormed(img)
  {
    ExecuteStep(t.(started := t.started[0 := true]), img, SHELL, Context(0, 0)).0
  }

  /** Terminals 0 to `k` have their shells, and those before `k` have been preempted. */
  ghost predicate Booting(t: Table, k: nat, saved: seq<Context>, entry: seq<char>) {
    && Shape(t) && k < |t.current| <= |saved| && !t.booted
    && t.scheduled == k && t.visible == k
    && (forall p :: 0 <= p < |t.used| ==> (t.used[p] <==> p <= k))
    && (forall u :: 0 <= u < |t.current| ==> t.current[u] == u && t.parentOf[u] == u && (t.started[u] <==> u <= k))
    && (forall u :: 0 <= u <= k ==> t.pcbs[u].parent == u && t.pcbs[u].entry == entry)
    && (forall u :: 0 <= u < k ==> t.pcbs[u].preempted == saved[u])
    && t.frame == FrameOf(k) && t.esp0 == KernelStackTop(k)
  }

  lemma ShellLaunches(used: seq<bool>, img: Image, pid: nat)
    requires WellFormed(img) && ShellLoads(img)
    requires pid < |used| && !used[pid] && forall p :: 0 <= p < pid ==> used[p]
    ensures ExecuteOutcome(used, img, SHELL) == Launched(pid, ShellEntry(img))
  {
    assert FirstFree(used) == pid;
  }

  /** What the slots beyond the shells' hold has not changed. */
  ghost predicate IdleKept(t: Table, r: Table) {
    && |r.current| == |t.current| && |r.pcbs| == |t.pcbs|
    && forall p :: |t.current| <= p < |t.pcbs| ==> r.pcbs[p] == t.pcbs[p]
  }

  lemma MainBoots(t: Table, img: Image, saved: seq<Context>)
    requires PoweredOn(t) && WellFormed(img) && ShellLoads(img) && |t.current| <= |saved|
    ensures Booting(Main(t, img), 0, saved, ShellEntry(img))
    ensures SameSize(t, Main(t, img)) && IdleKept(t, Main(t, img))
  {
    ShellLaunches(t.used, img, 0);
  }

  /** The table as the timer hands it to `execute` while booting. */
  function Handover(t: Table, k: nat, here: Context): (r: Table)
    requires Shape(t) && t.scheduled == k && k + 1 < |t.current|
    ensures SameSize(t, r)
  {
    var p := t.current[k];
    t.(scheduled := k + 1, visible := k + 1, started := t.started[k + 1 := true],
       pcbs := t.pcbs[p := t.pcbs[p].(preempted := here)])
  }

  lemma LaunchBoots(t: Table, k: nat, saved: seq<Context>, entry: seq<char>)
    requires Booting(t, k, saved, entry) && k + 1 < |t.current|
    ensures var r := Launch(Handover(t, k, saved[k]), k + 1, entry, saved[k]);
            Booting(r, k + 1, saved, entry) && IdleKept(t, r)
  {
    hide FrameOf;
  }

  /** A boot tick executes the shell on the terminal it moves to. */
  lemma TickExecutes(t: Table, k: nat, img: Image, saved: seq<Context>)
    requires WellFormed(img) && ShellLoads(img) && Booting(t, k, saved, ShellEntry(img)) && k + 1 < |t.current|
    ensures TickStep(t, img, saved[k]) == ExecuteStep(Handover(t, k, saved[k]), img, SHELL, saved[k])
  {
    hide ExecuteStep, ShellLoads, ShellEntry, WellFormed;
    NextTerminal(k, |t.current|);
  }

  lemma TickBoots(t: Table, k: nat, img: Image, saved: seq<Context>)
    requires WellFormed(img) && ShellLoads(img) && Booting(t, k, saved, ShellEntry(img)) && k + 1 < |t.current|
    ensures var r := TickStep(t, img, saved[k]).0; Booting(r, k + 1, saved, ShellEntry(img)) && IdleKept(t, r)
  {
    TickExecutes(t, k, img, saved);
    ShellLaunches(t.used, img, k + 1);
    LaunchBoots(t, k, saved, ShellEntry(img));
    hide ExecuteOutcome, ShellLoads, ShellEntry, WellFormed, Launch, Booting, TickStep, IdleKept;
  }

  /** One shell on each terminal, the first terminal running and on screen. */
  function Shells(n: nat, entry: seq<char>, timers: seq<Context>): Stacks {
    Stacks(seq(n, u requires 0 <= u => [Call(u, Context(0, 0), entry)]), 0, 0, 0, timers)
  }

  function TimersOf(t: Table): (timers: seq<Context>)
    ensures |timers| == |t.pcbs|
  {
    seq(|t.pcbs|, p requires 0 <= p < |t.pcbs| => t.pcbs[p].preempted)
  }

  lemma ShellsProper(n: nat, entry: seq<char>, timers: seq<Context>)
    requires 0 < n <= |timers|
    ensures var s := Shells(n, entry, timers);
            && Proper(s)
            && (forall u, i :: HasCall(s, u, i) <==> 0 <= u < n && i == 0)
            && (forall p: nat :: Live(s, p) <==> p < n)
  {
    var s := Shells(n, entry, timers);
    assert forall u, i :: HasCall(s, u, i) <==> 0 <= u < n && i == 0;
    assert forall u, i :: HasCall(s, u, i) ==> Pid(s, u, i) == u;
    forall p: nat
      ensures Live(s, p) <==> p < n
    {
      assert p < n ==> HasCall(s, p, 0) && Pid(s, p, 0) == p;
    }
  }

  /** The state boot ends in: a shell in each terminal's own slot, preempted in the pair the boot ticks saved. */
  ghost predicate Ready(t: Table, saved: seq<Context>, entry: seq<char>) {
    && |saved| == |t.current| && Shape(t)
    && Represents(t, Shells(|t.current|, entry, TimersOf(t)))
    && forall u :: 0 <= u < |saved| ==> t.pcbs[u].preempted == saved[u]
  }

  lemma LastTickBoots(t: Table, k: nat, img: Image, saved: seq<Context>)
    requires WellFormed(img) && ShellLoads(img) && Booting(t, k, saved, ShellEntry(img))
    requires k + 1 == |t.current| == |saved|
    ensures var (r, effect) := TickStep(t, img, saved[k]);
            Ready(r, saved, ShellEntry(img)) && IdleKept(t, r) && effect == Resumed(saved[0])
  {
    hide ShellLoads, WellFormed, Stored, FrameOf, KernelStackTop, Proper, ShellEntry, Live, ExecuteStep;
    var n := k + 1;
    NextTerminal(k, n);
    var r := TickStep(t, img, saved[k]).0;
    var s := Shells(n, ShellEntry(img), TimersOf(r));
    ShellsProper(n, ShellEntry(img), TimersOf(r));
    assert forall u, i :: HasCall(s, u, i) ==> Linked(r, s, u, i);
    forall u | 0 <= u < n
      ensures Current(r, s, u)
    {
      assert HasCall(s, u, 0);
    }
  }

  function BootTicks(saved: seq<Context>, from: nat): (es: seq<Event>)
    requires from <= |saved|
    ensures |es| == |saved| - from
    decreases |saved| - from
  {
    if from == |saved| then [] else [Tick(saved[from])] + BootTicks(saved, from + 1)
  }

  lemma {:induction false} TicksBoot(t: Table, k: nat, img: Image, saved: seq<Context>)
    requires WellFormed(img) && ShellLoads(img) && Booting(t, k, saved, ShellEntry(img)) && |saved| == |t.current|
    requires InRange(BootTicks(saved, k), |t.current|)
    ensures var (r, effects) := Run(t, img, BootTicks(saved, k));
            && Ready(r, saved, ShellEntry(img)) && IdleKept(t, r)
            && |effects| == |saved| - k && effects[|effects| - 1] == Resumed(saved[0])
    decreases |saved| - k
  {
    hide ShellLoads, ShellEntry, WellFormed, Ready, TickStep;
    var es := BootTicks(saved, k);
    assert es[1..] == BootTicks(saved, k + 1);
    if k + 1 == |saved| {
      LastTickBoots(t, k, img, saved);
    } else {
      TickBoots(t, k, img, saved);
      TicksBoot(TickStep(t, img, saved[k]).0, k + 1, img, saved);
    }
  }

  lemma {:induction false} BootTicksOnly(saved: seq<Context>, from: nat)
    requires from <= |saved|
    ensures forall e :: e in BootTicks(saved, from) ==> e.Tick?
    decreases |saved| - from
  {
    if from < |saved| {
      BootTicksOnly(saved, from + 1);
    }
  }

  /** The kernel as boot leaves it: the first shell started, and one tick for each terminal. */
  function Booted(t: Table, img: Image, saved: seq<Context>): (r: Table)
    requires PoweredOn(t) && WellFormed(img)
    ensures SameSize(t, r)
  {
    BootTicksOnly(saved, 0);
    Run(Main(t, img), img, BootTicks(saved, 0)).0
  }

  /**
   * From power on, starting the first shell and one tick for each terminal leaves one shell on every terminal,
   * the first terminal on screen, and the first shell running again where it was preempted.
   */
  lemma Boot(t: Table, img: Image, saved: seq<Context>)
    requires PoweredOn(t) && WellFormed(img) && ShellLoads(img) && |saved| == |t.current|
    ensures InRange(BootTicks(saved, 0), |t.current|)
    ensures Ready(Booted(t, img, saved), saved, ShellEntry(img)) && IdleKept(t, Booted(t, img, saved))
    ensures Run(Main(t, img), img, BootTicks(saved, 0)).1[|saved| - 1] == Resumed(saved[0])
  {
    hide PoweredOn, ShellLoads, ShellEntry, WellFormed, Booting, Ready, Run, BootTicks, Main;
    MainBoots(t, img, saved);
    BootTicksOnly(saved, 0);
    TicksBoot(Main(t, img), 0, img, saved);
  }

  /**
   * All together: from power on, through boot and any run after it, the handlers resume exactly what a machine of
   * nested calls would, the parent chains partition the slots in use, and the running process's memory is in place
   * exactly when the last launch, if no tick or halt of a program came after it, was made on screen.
   */
  lemma FromPowerOn(t: Table, img: Image, saved: seq<Context>, es: seq<Event>)
    requires PoweredOn(t) && WellFormed(img) && ShellLoads(img) && |saved| == |t.current| && InRange(es, |t.current|)
    ensures var b := Booted(t, img, saved);
            var s := Shells(|saved|, ShellEntry(img), TimersOf(b));
            var (r, effects) := Run(b, img, es);
            && Proper(s)
            && effects == StackRun(s, img, es).1
            && ChainsPartition(r, Depths(StackRun(s, img, es).0))
            && (InPlace(r) <==> PlacedAtEnd(b, img, es, true))
  {
    hide ShellLoads, ShellEntry, WellFormed, ChainsPartition, Step, Main, PoweredOn, InPlace, PlacedAtEnd;
    var b := Booted(t, img, saved);
    var s := Shells(|saved|, ShellEntry(img), TimersOf(b));
    Boot(t, img, saved);
    ReadyInPlace(b, saved, ShellEntry(img));
    RunRefines(b, s, img, es);
    InPlaceIff(b, s, img, es);
    TableChains(Run(b, img, es).0, StackRun(s, img, es).0);
  }

  lemma ReadyInPlace(t: Table, saved: seq<Context>, entry: seq<char>)
    requires Ready(t, saved, entry)
    ensures t.scheduled == t.visible == 0 && t.current[0] == 0 && InPlace(t)
    ensures forall p :: 0 <= p < |t.used| ==> (t.used[p] <==> p < |t.current|)
  {
    var s := Shells(|t.current|, entry, TimersOf(t));
    ShellsProper(|t.current|, entry, TimersOf(t));
    assert Current(t, s, 0);
    FrameIs(0);
  }

  /** Right after boot, show the second terminal and let the first one's shell start a program: its memory is gone. */
  lemma OffScreenLaunchMisplaces(t: Table, img: Image, saved: seq<Context>, fname: seq<char>, here: Context)
    requires PoweredOn(t) && WellFormed(img) && ShellLoads(img) && |saved| == |t.current| >= 2
    requires ExecuteOutcome(Booted(t, img, saved).used, img, fname).Launched?
    ensures var shown := Step(Booted(t, img, saved), img, Show(1)).0;
            InPlace(shown) && !InPlace(Step(shown, img, Execute(fname, here)).0)
  {
    hide ShellLoads, ShellEntry, WellFormed, Main, PoweredOn, Booted;
    var b := Booted(t, img, saved);
    Boot(t, img, saved);
    ReadyInPlace(b, saved, ShellEntry(img));
    LaunchElsewhere(b, Shells(|saved|, ShellEntry(img), TimersOf(b)), img, fname, here);
  }

  lemma LaunchElsewhere(t: Table, s: Stacks, img: Image, fname: seq<char>, here: Context)
    requires WellFormed(img) && Represents(t, s) && |s.terms| >= 2 && t.scheduled == 0 && InPlace(t)
    requires ExecuteOutcome(t.used, img, fname).Launched?
    ensures var shown := Step(t, img, Show(1)).0;
            InPlace(shown) && !InPlace(Step(shown, img, Execute(fname, here)).0)
  {
    hide WellFormed, ExecuteOutcome;
    ShowSimulates(t, s, 1);
    StepInPlaceIff(t.(visible := 1), s.(shown := 1), img, Execute(fname, here));
  }

  /**
   * Three terminals, right after boot, the first on screen: a tick, the second's shell starts another, two ticks more.
   * The first terminal resumes a pair no tick has saved: what the slot held when the machine was switched on.
   */
  lemma StalePairResumed(t: Table, img: Image, saved: seq<Context>, a: Context, b: Context, c: Context, here: Context)
    requires PoweredOn(t) && WellFormed(img) && ShellLoads(img) && |saved| == |t.current| == 3 < |t.used|
    ensures var t1 := TickStep(Booted(t, img, saved), img, a).0;
            TickStep(Run(t1, img, [Execute(SHELL, here), Tick(b)]).0, img, c).1 == Resumed(t.pcbs[3].preempted)
  {
    var es := [Execute(SHELL, here), Tick(b)];
    var t0 := Booted(t, img, saved);
    var t1 := TickStep(t0, img, a).0;
    Boot(t, img, saved);
    ReadyInPlace(t0, saved, ShellEntry(img));
    AfterFirstTick(t0, img, saved, a);
    ShellLaunches(t1.used, img, 3);
    assert LaunchesOn(t1, img, es[0], 0) && t1.pcbs[3] == t.pcbs[3] && FirstFree(t1.used) == 3;
    hide PoweredOn, ShellLoads, ShellEntry, WellFormed, Booted, TickStep, Ready, Represents, Run, LaunchesOn, FirstFree;
    assert es[1..] == [Tick(b)] && Ticks([Tick(b)]) == 1;
    TakenFirst(t1, img, es, 0);
    ResumesExactly(t0, Shells(3, ShellEntry(img), TimersOf(t0)), img, a, es, c);
  }

  /** A run that starts with a launch and has no other call. */
  lemma TakenFirst(t: Table, img: Image, es: seq<Event>, u: nat)
    requires Shape(t) && WellFormed(img) && InRange(es, |t.current|)
    requires es != [] && LaunchesOn(t, img, es[0], u) && forall i :: 0 < i < |es| ==> !es[i].Execute?
    ensures FirstFree(t.used) < |t.used|
    ensures LastTaken(t, img, es, u) == Stale(t.pcbs[FirstFree(t.used)].preempted)
  {
    NoCallTakesNothing(Step(t, img, es[0]).0, img, es[1..], u);
  }

  lemma {:induction false} NoCallTakesNothing(t: Table, img: Image, es: seq<Event>, u: nat)
    requires Shape(t) && WellFormed(img) && InRange(es, |t.current|)
    requires forall i :: 0 <= i < |es| ==> !es[i].Execute?
    ensures LastTaken(t, img, es, u) == None
    decreases |es|
  {
    if es != [] {
      NoCallTakesNothing(Step(t, img, es[0]).0, img, es[1..], u);
    }
  }

  lemma AfterFirstTick(t: Table, img: Image, saved: seq<Context>, here: Context)
    requires WellFormed(img) && ShellLoads(img) && Ready(t, saved, ShellEntry(img)) && |t.current| >= 2
    ensures var r := TickStep(t, img, here).0;
            && r.visible == t.visible && r.used == t.used && IdleKept(t, r)
            && Represents(t, Shells(|t.current|, ShellEntry(img), TimersOf(t)))
  {
    hide ShellLoads, ShellEntry, WellFormed;
    ReadyInPlace(t, saved, ShellEntry(img));
    NextTerminal(0, |t.current|);
  }
}
