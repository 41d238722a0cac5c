/** The process table refines the stack machine, step by step. */
module ProcessRefinement {
  import opened FileSystem
  import opened ProcessTable
  import opened ProcessStacks

  // ---------------------------------------------------------------- what a table represents

  /** One call's share of the table: its parent link, its entry point, and its caller's saved pair. */
  ghost predicate Linked(t: Table, s: Stacks, u: int, i: int)
    requires Shape(t) && Proper(s) && |s.timers| == |t.used| && HasCall(s, u, i)
  {
    var pcb := t.pcbs[Pid(s, u, i)];
    && pcb.entry == s.terms[u][i].entry
    && (i == 0 ==> pcb.parent == u)
    && (i > 0 ==> pcb.parent == Pid(s, u, i - 1) && t.pcbs[Pid(s, u, i - 1)].resume == s.terms[u][i].resume)
  }

  ghost predicate Current(t: Table, s: Stacks, u: int)
    requires Shape(t) && |s.terms| == |t.current| && 0 <= u < |s.terms|
  {
    && HasCall(s, u, 0)
    && t.current[u] == Top(s, u).pid
    && t.parentOf[u] == t.pcbs[t.current[u]].parent
  }

  ghost predicate Fields(t: Table, s: Stacks) {
    && Shape(t) && Proper(s) && |s.terms| == |t.current| && |s.timers| == |t.used|
    && t.booted && (forall u :: 0 <= u < |t.started| ==> t.started[u])
    && t.scheduled == s.running && t.visible == s.shown
    && (forall p :: 0 <= p < |t.used| ==> t.pcbs[p].preempted == s.timers[p])
    && t.frame == FrameOf(s.mapped) && t.esp0 == KernelStackTop(s.mapped)
  }

  ghost predicate SlotsLive(t: Table, s: Stacks) {
    forall p :: 0 <= p < |t.used| ==> (t.used[p] <==> Live(s, p))
  }

  ghost predicate AllCurrent(t: Table, s: Stacks)
    requires Fields(t, s)
  {
    forall u :: 0 <= u < |s.terms| ==> Current(t, s, u)
  }

  ghost predicate AllLinked(t: Table, s: Stacks)
    requires Fields(t, s)
  {
    forall u, i {:trigger Linked(t, s, u, i)} :: HasCall(s, u, i) ==> Linked(t, s, u, i)
  }

  ghost predicate Represents(t: Table, s: Stacks) {
    Fields(t, s) && SlotsLive(t, s) && AllCurrent(t, s) && AllLinked(t, s)
  }

  lemma SlotsAgree(t: Table, s: Stacks)
    requires Represents(t, s)
    ensures SlotsOf(s) == t.used
  {
  }

  // ---------------------------------------------------------------- one step

  /** A free slot belongs to no stack, and no shell's slot is free. */
  lemma FreeSlot(t: Table, s: Stacks, pid: nat)
    requires Represents(t, s) && pid < |t.used| && !t.used[pid]
    ensures |t.current| <= pid && !Live(s, pid)
    ensures forall u, i :: HasCall(s, u, i) ==> Pid(s, u, i) != pid
    ensures forall u :: 0 <= u < |t.current| ==> t.current[u] != pid
  {
    forall u | 0 <= u < |t.current|
      ensures Live(s, u) && Live(s, t.current[u])
    {
      TopSlot(s, u);
      assert Current(t, s, u) && HasCall(s, u, 0) && Pid(s, u, 0) == u;
    }
  }

  /** The slot a terminal runs in is its own, and a shell's only if it runs nothing else. */
  lemma RunningSlot(t: Table, s: Stacks, u: nat)
    requires Represents(t, s) && u < |t.current|
    ensures HasCall(s, u, 0) && Top(s, u).pid == Pid(s, u, |s.terms[u]| - 1) == t.current[u]
    ensures t.current[u] < |t.current| <==> |s.terms[u]| == 1
    ensures |s.terms[u]| == 1 ==> t.current[u] == u
    ensures forall v :: 0 <= v < |t.current| && v != u ==> t.current[v] != t.current[u]
  {
    TopSlot(s, u);
    assert Current(t, s, u);
    if t.current[u] < |t.current| {
      assert HasCall(s, t.current[u], 0);
    }
    forall v | 0 <= v < |t.current| && v != u
      ensures t.current[v] != t.current[u]
    {
      assert Current(t, s, v);
      TopsDiffer(s, u, v);
    }
  }

  lemma TopsDiffer(s: Stacks, u: nat, v: nat)
    requires Proper(s) && u < |s.terms| && v < |s.terms|
    ensures HasCall(s, u, 0) && HasCall(s, v, 0)
    ensures u != v ==> Top(s, u).pid != Top(s, v).pid
  {
    TopSlot(s, u);
    TopSlot(s, v);
  }

  lemma LaunchLive(s: Stacks, c: Call, p: nat)
    requires s.shown < |s.terms|
    ensures Live(Push(s, c), p) <==> Live(s, p) || p == c.pid
  {
    var s', r := Push(s, c), s.shown;
    var d := |s.terms[r]|;
    assert HasCall(s', r, d) && Pid(s', r, d) == c.pid;
    if Live(s, p) {
      var u, i :| HasCall(s, u, i) && Pid(s, u, i) == p;
      assert HasCall(s', u, i) && Pid(s', u, i) == p;
    }
    if Live(s', p) && p != c.pid {
      var u, i :| HasCall(s', u, i) && Pid(s', u, i) == p;
      assert HasCall(s, u, i) && Pid(s, u, i) == p;
    }
  }

  lemma LaunchLinks(t: Table, s: Stacks, pid: nat, entry: seq<char>, here: Context, u: int, i: int)
    requires Represents(t, s) && pid < |t.used| && !t.used[pid]
    requires Proper(Push(s, Call(pid, here, entry))) && HasCall(Push(s, Call(pid, here, entry)), u, i)
    ensures Linked(Launch(t, pid, entry, here), Push(s, Call(pid, here, entry)), u, i)
  {
    FreeSlot(t, s, pid);
    var r := s.shown;
    RunningSlot(t, s, r);
    hide Live, Current, FrameOf, KernelStackTop;
    if (u, i) != (r, |s.terms[r]|) {
      assert HasCall(s, u, i) && Linked(t, s, u, i);
      if i > 0 {
        assert (u, i - 1) != (r, |s.terms[r]| - 1);
      }
    }
  }

  lemma LaunchCurrent(t: Table, s: Stacks, pid: nat, entry: seq<char>, here: Context, u: int)
    requires Represents(t, s) && pid < |t.used| && !t.used[pid] && 0 <= u < |s.terms|
    ensures Current(Launch(t, pid, entry, here), Push(s, Call(pid, here, entry)), u)
  {
    FreeSlot(t, s, pid);
    RunningSlot(t, s, s.shown);
    assert Current(t, s, u);
    hide Linked, Live, FrameOf, KernelStackTop, Represents;
  }

  lemma LaunchFields(t: Table, s: Stacks, pid: nat, entry: seq<char>, here: Context)
    requires Represents(t, s) && pid < |t.used| && !t.used[pid]
    ensures Fields(Launch(t, pid, entry, here), Push(s, Call(pid, here, entry)))
  {
    FreeSlot(t, s, pid);
    PushProper(s, Call(pid, here, entry));
    hide Proper, AllLinked, AllCurrent, Live, FrameOf;
  }

  /** A program filed under the terminal on screen is one call more there, whichever terminal runs. */
  lemma LaunchSimulates(t: Table, s: Stacks, pid: nat, entry: seq<char>, here: Context)
    requires Represents(t, s) && pid < |t.used| && !t.used[pid]
    ensures Represents(Launch(t, pid, entry, here), Push(s, Call(pid, here, entry)))
  {
    var t', s' := Launch(t, pid, entry, here), Push(s, Call(pid, here, entry));
    LaunchFields(t, s, pid, entry, here);
    assert AllLinked(t', s') by {
      forall u, i | HasCall(s', u, i)
        ensures Linked(t', s', u, i)
      {
        LaunchLinks(t, s, pid, entry, here, u, i);
      }
    }
    assert AllCurrent(t', s') by {
      forall u | 0 <= u < |s.terms|
        ensures Current(t', s', u)
      {
        LaunchCurrent(t, s, pid, entry, here, u);
      }
    }
    hide Fields, AllLinked, AllCurrent;
    forall p | 0 <= p < |t.used|
      ensures Live(s', p) <==> Live(s, p) || p == pid
    {
      LaunchLive(s, Call(pid, here, entry), p);
    }
  }

  lemma PopLive(s: Stacks, p: nat)
    requires Proper(s) && |s.terms[s.running]| > 1
    ensures Live(Pop(s), p) <==> Live(s, p) && p != Top(s, s.running).pid
  {
    var s', r := Pop(s), s.running;
    TopSlot(s, r);
    if Live(s, p) && p != Top(s, r).pid {
      var u, i :| HasCall(s, u, i) && Pid(s, u, i) == p;
      assert HasCall(s', u, i) && Pid(s', u, i) == p;
    }
    if Live(s', p) {
      var u, i :| HasCall(s', u, i) && Pid(s', u, i) == p;
      assert HasCall(s, u, i) && Pid(s, u, i) == p;
    }
  }

  lemma PopLinks(t: Table, s: Stacks, u: int, i: int)
    requires Represents(t, s) && |s.terms[s.running]| > 1
    requires Proper(Pop(s)) && HasCall(Pop(s), u, i)
    ensures Linked(HaltStep(t).0, Pop(s), u, i)
  {
    RunningSlot(t, s, s.running);
    assert HasCall(s, u, i) && Linked(t, s, u, i);
  }

  lemma PopCurrent(t: Table, s: Stacks, u: int)
    requires Represents(t, s) && |s.terms[s.running]| > 1 && 0 <= u < |s.terms|
    ensures Current(HaltStep(t).0, Pop(s), u)
  {
    var r := s.running;
    RunningSlot(t, s, r);
    assert HasCall(s, u, 0) && Current(t, s, u);
    if u == r {
      var d := |s.terms[r]|;
      assert HasCall(s, r, d - 1) && Linked(t, s, r, d - 1);
    }
  }

  lemma PopFields(t: Table, s: Stacks)
    requires Represents(t, s) && |s.terms[s.running]| > 1
    ensures Fields(HaltStep(t).0, Pop(s)) && HaltStep(t).1 == Resumed(Top(s, s.running).resume)
  {
    var r := s.running;
    var d := |s.terms[r]|;
    RunningSlot(t, s, r);
    assert Current(t, s, r) && HasCall(s, r, d - 1) && Linked(t, s, r, d - 1);
    PopProper(s);
    hide Proper, AllLinked, AllCurrent, Live, FrameOf;
  }

  lemma PopSimulates(t: Table, s: Stacks)
    requires Represents(t, s) && |s.terms[s.running]| > 1
    ensures Represents(HaltStep(t).0, Pop(s))
  {
    var t', s' := HaltStep(t).0, Pop(s);
    PopFields(t, s);
    RunningSlot(t, s, s.running);
    assert AllLinked(t', s') by {
      forall u, i | HasCall(s', u, i)
        ensures Linked(t', s', u, i)
      {
        PopLinks(t, s, u, i);
      }
    }
    assert AllCurrent(t', s') by {
      forall u | 0 <= u < |s.terms|
        ensures Current(t', s', u)
      {
        PopCurrent(t, s, u);
      }
    }
    hide AllLinked, AllCurrent, FrameOf;
    forall p | 0 <= p < |t.used|
      ensures Live(s', p) <==> Live(s, p) && p != t.current[s.running]
    {
      PopLive(s, p);
    }
  }

  /** A halt ends the call on top of the running terminal, and resumes the pair saved when that call was made. */
  lemma HaltSimulates(t: Table, s: Stacks, img: Image)
    requires Represents(t, s) && WellFormed(img)
    ensures Represents(HaltStep(t).0, StackStep(s, img, Halt).0)
    ensures HaltStep(t).1 == StackStep(s, img, Halt).1
  {
    RunningSlot(t, s, s.running);
    if |s.terms[s.running]| > 1 {
      PopFields(t, s);
      PopSimulates(t, s);
    } else {
      assert Linked(t, s, s.running, 0);
    }
  }

  lemma TickLinks(t: Table, s: Stacks, img: Image, here: Context, u: int, i: int)
    requires Represents(t, s) && WellFormed(img)
    requires var s' := StackStep(s, img, Tick(here)).0;
             Proper(s') && |s'.timers| == |s.timers| && HasCall(s', u, i)
    ensures Linked(TickStep(t, img, here).0, StackStep(s, img, Tick(here)).0, u, i)
  {
    assert HasCall(s, u, i) && Linked(t, s, u, i);
    hide Live, Current, FrameOf, KernelStackTop, WellFormed;
  }

  lemma TickCurrent(t: Table, s: Stacks, img: Image, here: Context, u: int)
    requires Represents(t, s) && WellFormed(img) && 0 <= u < |s.terms|
    ensures Current(TickStep(t, img, here).0, StackStep(s, img, Tick(here)).0, u)
  {
    RunningSlot(t, s, s.running);
    assert Current(t, s, u);
    hide Linked, Live, Proper, FrameOf, KernelStackTop, WellFormed;
    TurnProperAt(s, img, here, u);
  }

  lemma TurnProperAt(s: Stacks, img: Image, here: Context, u: int)
    requires Proper(s) && WellFormed(img) && 0 <= u < |s.terms|
    ensures var s' := StackStep(s, img, Tick(here)).0;
            s'.terms == s.terms && HasCall(s', u, 0) && Top(s', u) == Top(s, u)
  {
    assert HasCall(s, u, 0);
  }

  lemma TickFields(t: Table, s: Stacks, img: Image, here: Context)
    requires Represents(t, s) && WellFormed(img)
    ensures Fields(TickStep(t, img, here).0, StackStep(s, img, Tick(here)).0)
    ensures TickStep(t, img, here).1 == StackStep(s, img, Tick(here)).1
  {
    var next := (s.running + 1) % |s.terms|;
    TurnProper(s, next, here);
    RunningSlot(t, s, s.running);
    RunningSlot(t, s, next);
    hide FrameOf, KernelStackTop, ExecuteStep, WellFormed, Live, AllLinked, AllCurrent, Proper;
  }

  lemma TickSimulates(t: Table, s: Stacks, img: Image, here: Context)
    requires Represents(t, s) && WellFormed(img)
    ensures Represents(TickStep(t, img, here).0, StackStep(s, img, Tick(here)).0)
    ensures TickStep(t, img, here).1 == StackStep(s, img, Tick(here)).1
  {
    var t', s' := TickStep(t, img, here).0, StackStep(s, img, Tick(here)).0;
    TickFields(t, s, img, here);
    SameCalls(s, s');
    assert AllLinked(t', s') by {
      forall u, i | HasCall(s', u, i)
        ensures Linked(t', s', u, i)
      {
        TickLinks(t, s, img, here, u, i);
      }
    }
    assert AllCurrent(t', s') by {
      forall u | 0 <= u < |s'.terms|
        ensures Current(t', s', u)
      {
        TickCurrent(t, s, img, here, u);
      }
    }
    hide AllLinked, AllCurrent, Live, Fields, StackStep, ExecuteStep;
  }

  lemma ShowSimulates(t: Table, s: Stacks, terminal: nat)
    requires Represents(t, s) && terminal < |s.terms|
    ensures Represents(t.(visible := terminal), s.(shown := terminal))
  {
    var t', s' := t.(visible := terminal), s.(shown := terminal);
    SameCalls(s, s');
    assert forall u :: 0 <= u < |s.terms| ==> Current(t, s, u) ==> Current(t', s', u);
    forall u, i | HasCall(s', u, i)
      ensures Linked(t', s', u, i)
    {
      assert HasCall(s, u, i) && Linked(t, s, u, i);
    }
  }

  /** Every handler does to the table what the stack machine does to the stacks, and resumes the same context. */
  lemma StepSimulates(t: Table, s: Stacks, img: Image, e: Event)
    requires Represents(t, s) && WellFormed(img) && (e.Show? ==> e.terminal < |s.terms|)
    ensures Represents(Step(t, img, e).0, StackStep(s, img, e).0)
    ensures Step(t, img, e).1 == StackStep(s, img, e).1
  {
    match e
    case Execute(fname, here) =>
      SlotsAgree(t, s);
      match ExecuteOutcome(t.used, img, fname) {
        case Launched(pid, entry) => LaunchSimulates(t, s, pid, entry, here);
        case _ =>
      }
    case Halt => HaltSimulates(t, s, img);
    case Tick(here) => TickSimulates(t, s, img, here);
    case Show(terminal) => ShowSimulates(t, s, terminal);
  }
}
