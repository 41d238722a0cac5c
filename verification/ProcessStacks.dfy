/**
 * What the process table is for: each terminal runs a stack of nested programs on top of its own shell.
 * The stack machine below keeps no pid arrays and no parent links, and a call carries its own return pair;
 * the table is shown to do exactly what it does, over every run.
 */
module ProcessStacks {
  import opened FileSystem
  import opened ProcessTable

  /** A running program: its slot, where its caller resumes when it halts, and where it starts. */
  datatype Call = Call(pid: nat, resume: Context, entry: seq<char>)

  /**
   * `running` is the terminal the processor works for and `shown` the one on screen; `mapped` is the slot whose memory
   * is in place; `timers` holds for each slot the pair the timer last saved there, whichever process was in it.
   */
  datatype Stacks = Stacks(terms: seq<seq<Call>>, running: nat, shown: nat, mapped: nat, timers: seq<Context>)

  // ---------------------------------------------------------------- the stack machine

  predicate HasCall(s: Stacks, u: int, i: int) {
    0 <= u < |s.terms| && 0 <= i < |s.terms[u]|
  }

  function Pid(s: Stacks, u: int, i: int): nat
    requires HasCall(s, u, i)
  {
    s.terms[u][i].pid
  }

  ghost predicate Live(s: Stacks, p: nat) {
    exists u, i :: HasCall(s, u, i) && Pid(s, u, i) == p
  }

  /** Every terminal runs at least its shell, shell `u` in slot `u`; no slot is used twice. */
  ghost predicate Proper(s: Stacks) {
    && s.running < |s.terms| && s.shown < |s.terms| <= |s.timers| && s.mapped < |s.timers|
    && (forall u :: 0 <= u < |s.terms| ==> HasCall(s, u, 0) && Pid(s, u, 0) == u)
    && (forall u, i :: HasCall(s, u, i) ==> Pid(s, u, i) < |s.timers|)
    && (forall u, i, v, j :: HasCall(s, u, i) && HasCall(s, v, j) && Pid(s, u, i) == Pid(s, v, j) ==> u == v && i == j)
  }

  ghost function SlotsOf(s: Stacks): (used: seq<bool>)
    ensures |used| == |s.timers|
  {
    seq(|s.timers|, p requires 0 <= p => Live(s, p))
  }

  function Top(s: Stacks, u: nat): Call
    requires u < |s.terms| && s.terms[u] != []
  {
    s.terms[u][|s.terms[u]| - 1]
  }

  /** A program starts on the terminal on screen, and its memory is put in place. */
  function Push(s: Stacks, c: Call): Stacks
    requires s.shown < |s.terms|
  {
    s.(terms := s.terms[s.shown := s.terms[s.shown] + [c]], mapped := c.pid)
  }

  /** The program on top of the running terminal ends, and its caller's memory is put in place. */
  function Pop(s: Stacks): Stacks
    requires s.running < |s.terms| && |s.terms[s.running]| > 1
  {
    var calls := s.terms[s.running];
    s.(terms := s.terms[s.running := calls[..|calls| - 1]], mapped := calls[|calls| - 2].pid)
  }

  /** The timer saves the pair of the running terminal's program and goes on to the next terminal's. */
  function Turn(s: Stacks, next: nat, here: Context): Stacks
    requires s.running < |s.terms| && s.terms[s.running] != [] && Top(s, s.running).pid < |s.timers|
    requires next < |s.terms| && s.terms[next] != []
  {
    s.(running := next, mapped := Top(s, next).pid, timers := s.timers[Top(s, s.running).pid := here])
  }

  lemma TopSlot(s: Stacks, u: nat)
    requires Proper(s) && u < |s.terms|
    ensures HasCall(s, u, 0) && HasCall(s, u, |s.terms[u]| - 1)
    ensures Pid(s, u, |s.terms[u]| - 1) == Top(s, u).pid < |s.timers| && Live(s, Top(s, u).pid)
  {
    assert HasCall(s, u, 0);
    assert HasCall(s, u, |s.terms[u]| - 1);
  }

  ghost function StackStep(s: Stacks, img: Image, e: Event): (Stacks, Effect)
    requires Proper(s) && WellFormed(img)
  {
    TopSlot(s, s.running);
    match e
    case Execute(fname, here) => (
      match ExecuteOutcome(SlotsOf(s), img, fname)
      case Failed => (s, Returned(-1))
      case TableFull => (s, Returned(0))
      case Launched(pid, entry) => (Push(s, Call(pid, here, entry)), Entered(entry))
    )
    case Halt =>
      if |s.terms[s.running]| == 1 then (s, Entered(Top(s, s.running).entry))
      else (Pop(s), Resumed(Top(s, s.running).resume))
    case Tick(here) =>
      var next := (s.running + 1) % |s.terms|;
      TopSlot(s, next);
      var turned := Turn(s, next, here);
      (turned, Resumed(turned.timers[Top(s, next).pid]))
    case Show(terminal) => (s.(shown := terminal), Continued)
  }

  lemma SlotFree(s: Stacks)
    requires Proper(s) && FirstFree(SlotsOf(s)) < |s.timers|
    ensures !Live(s, FirstFree(SlotsOf(s)))
  {
    assert !SlotsOf(s)[FirstFree(SlotsOf(s))];
  }

  lemma PushProper(s: Stacks, c: Call)
    requires Proper(s) && c.pid < |s.timers| && !Live(s, c.pid)
    ensures Proper(Push(s, c))
  {
    var s' := Push(s, c);
    var d := |s.terms[s.shown]|;
    forall u, i | HasCall(s', u, i)
      ensures if (u, i) == (s.shown, d) then Pid(s', u, i) == c.pid
              else HasCall(s, u, i) && Pid(s, u, i) == Pid(s', u, i)
    {
    }
    forall u | 0 <= u < |s'.terms|
      ensures HasCall(s', u, 0) && Pid(s', u, 0) == u
    {
      assert HasCall(s, u, 0);
    }
  }

  lemma PopProper(s: Stacks)
    requires Proper(s) && |s.terms[s.running]| > 1
    ensures Proper(Pop(s))
  {
    var s' := Pop(s);
    forall u, i | HasCall(s', u, i)
      ensures HasCall(s, u, i) && Pid(s, u, i) == Pid(s', u, i)
    {
    }
    forall u | 0 <= u < |s'.terms|
      ensures HasCall(s', u, 0) && Pid(s', u, 0) == u
    {
      assert HasCall(s, u, 0);
    }
    assert HasCall(s, s.running, |s.terms[s.running]| - 2);
  }

  lemma TurnProper(s: Stacks, next: nat, here: Context)
    requires Proper(s) && next < |s.terms|
    ensures s.terms[s.running] != [] && Top(s, s.running).pid < |s.timers| && s.terms[next] != []
    ensures Proper(Turn(s, next, here))
  {
    TopSlot(s, s.running);
    TopSlot(s, next);
    SameCalls(s, Turn(s, next, here));
  }

  /** The stack machine keeps its stacks proper whatever happens. */
  lemma StackStepProper(s: Stacks, img: Image, e: Event)
    requires Proper(s) && WellFormed(img) && (e.Show? ==> e.terminal < |s.terms|)
    ensures var s' := StackStep(s, img, e).0;
            Proper(s') && |s'.terms| == |s.terms| && |s'.timers| == |s.timers|
  {
    TopSlot(s, s.running);
    match e
    case Execute(fname, here) =>
      match ExecuteOutcome(SlotsOf(s), img, fname) {
        case Launched(pid, entry) =>
          SlotFree(s);
          PushProper(s, Call(pid, here, entry));
        case _ =>
      }
    case Halt =>
      if |s.terms[s.running]| > 1 {
        PopProper(s);
      }
    case Tick(here) => TurnProper(s, (s.running + 1) % |s.terms|, here);
    case Show(terminal) => SameCalls(s, s.(shown := terminal));
  }

  lemma SameCalls(s: Stacks, s': Stacks)
    requires Proper(s) && s'.terms == s.terms && |s'.timers| == |s.timers|
    requires s'.running < |s.terms| && s'.shown < |s.terms| && s'.mapped < |s.timers|
    ensures Proper(s')
    ensures forall p :: Live(s, p) <==> Live(s', p)
  {
    assert forall u, i :: HasCall(s', u, i) <==> HasCall(s, u, i);
    assert forall u, i :: HasCall(s', u, i) ==> Pid(s, u, i) == Pid(s', u, i);
  }
}
