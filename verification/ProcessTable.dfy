/**
 * The process table and the scheduler, as states and steps.
 * Each handler (`execute`, `halt`, the timer tick, a terminal switch) is one atomic step.
 */
module ProcessTable {
  import opened Bytes
  import opened FileSystem

  const MB4 := 0x40_0000
  const MB8 := 0x80_0000
  const KB8 := 0x2000
  const ELF_MAGIC: seq<char> := ['\U{7F}', 'E', 'L', 'F']
  const ENTRY_OFFSET := 24
  const SHELL: seq<char> := "shell\0"

  /** A saved stack and frame pointer: what it takes to resume kernel execution. */
  datatype Context = Context(esp: nat, ebp: nat)

  /** `resume` is the pair `execute` saves in the parent; `preempted` is the pair the timer saves. */
  datatype Pcb = Pcb(parent: nat, resume: Context, preempted: Context, entry: seq<char>)

  /** Terminals are numbered from 0; `visible` is the kernel's `currentTerminal - 1`. */
  datatype Table = Table(
    used: seq<bool>, pcbs: seq<Pcb>,
    current: seq<nat>, parentOf: seq<nat>,
    scheduled: nat, visible: nat,
    frame: nat, esp0: int,
    started: seq<bool>, booted: bool)

  datatype Event =
    | Execute(fname: seq<char>, here: Context)
    | Halt
    | Tick(here: Context)
    | Show(terminal: nat)

  /** What the processor does when the handler is done. */
  datatype Effect =
    | Returned(value: int)
    | Entered(entry: seq<char>)
    | Resumed(context: Context)
    | Continued

  datatype Outcome = Failed | TableFull | Launched(pid: nat, entry: seq<char>)

  /** The 4 MB frame a process's user page maps to, in the page directory's 10-bit field. */
  function FrameOf(pid: nat): nat {
    (MB8 + MB4 * pid) / MB4 % 1024
  }

  function KernelStackTop(pid: nat): int {
    MB8 - KB8 * pid
  }

  /** The lowest free slot; the length of the table if it is full. */
  function FirstFree(used: seq<bool>): (pid: nat)
    ensures pid <= |used| && forall p :: 0 <= p < pid ==> used[p]
    ensures pid < |used| ==> !used[pid]
  {
    if used == [] || !used[0] then 0 else 1 + FirstFree(used[1..])
  }

  /** A well-shaped table; a pid must fit the PCB's signed parent byte. */
  ghost predicate Shape(t: Table) {
    && 0 < |t.current| == |t.parentOf| == |t.started| <= |t.used| == |t.pcbs| <= 128
    && t.scheduled < |t.current| && t.visible < |t.current|
    && (forall u :: 0 <= u < |t.current| ==> t.current[u] < |t.used| && t.parentOf[u] < |t.used|)
    && (forall p :: 0 <= p < |t.pcbs| ==> t.pcbs[p].parent < |t.used|)
  }

  ghost predicate SameSize(t: Table, r: Table) {
    Shape(r) && |r.current| == |t.current| && |r.used| == |t.used|
  }

  // ---------------------------------------------------------------- the steps

  /** Whether a file of this name can be started, and in which slot. */
  function ExecuteOutcome(used: seq<bool>, img: Image, fname: seq<char>): (o: Outcome)
    requires WellFormed(img)
    ensures o.Launched? ==> o.pid == FirstFree(used) < |used|
  {
    var k := LastNamed(img.dentries, CString(fname));
    if k == -1 then Failed
    else if FirstFree(used) == |used| then TableFull
    else
      var inode := img.dentries[k].inode;
      if inode >= |img.inodes| || Stored(img, inode)[..4] != ELF_MAGIC then Failed
      else Launched(FirstFree(used), Stored(img, inode)[ENTRY_OFFSET..ENTRY_OFFSET + 4])
  }

  /** The table after `execute` has started a program in slot `pid`. */
  function Launch(t: Table, pid: nat, entry: seq<char>, here: Context): (r: Table)
    requires Shape(t) && pid < |t.used|
    ensures SameSize(t, r)
  {
    var v := t.visible;
    var parent := if pid < |t.current| then pid else t.current[v];
    var pcbs := t.pcbs[pid := t.pcbs[pid].(parent := parent, entry := entry)];
    t.(used := t.used[pid := true],
       parentOf := t.parentOf[v := t.current[v]],
       current := t.current[v := pid],
       frame := FrameOf(pid),
       esp0 := KernelStackTop(pid),
       pcbs := if pid < |t.current| then pcbs else pcbs[parent := pcbs[parent].(resume := here)])
  }

  function ExecuteStep(t: Table, img: Image, fname: seq<char>, here: Context): (r: (Table, Effect))
    requires Shape(t) && WellFormed(img)
    ensures SameSize(t, r.0)
  {
    match ExecuteOutcome(t.used, img, fname)
    case Failed => (t, Returned(-1))
    case TableFull => (t, Returned(0))
    case Launched(pid, entry) => (Launch(t, pid, entry, here), Entered(entry))
  }

  // ---------------------------------------------------------------- what decides an execute

  /** Entry `k` is the last of this name. */
  ghost predicate LastOf(img: Image, name: seq<char>, k: int) {
    && 0 <= k < |img.dentries| && NameOf(img.dentries[k]) == name
    && forall j :: k < j < |img.dentries| ==> NameOf(img.dentries[j]) != name
  }

  ghost predicate Present(img: Image, name: seq<char>) {
    exists k :: 0 <= k < |img.dentries| && NameOf(img.dentries[k]) == name
  }

  /** The file exists and starts with 0x7F, E, L, F. */
  ghost predicate Executable(img: Image, inode: nat)
    requires WellFormed(img)
  {
    && inode < |img.inodes|
    && var bytes := Stored(img, inode);
       bytes[0] == '\U{7F}' && bytes[1] == 'E' && bytes[2] == 'L' && bytes[3] == 'F'
  }

  /** The last entry of this name is an executable file. */
  ghost predicate Startable(img: Image, name: seq<char>)
    requires WellFormed(img)
  {
    exists k :: LastOf(img, name, k) && Executable(img, img.dentries[k].inode)
  }

  ghost predicate Full(used: seq<bool>) {
    forall p :: 0 <= p < |used| ==> used[p]
  }

  /** The lowest free slot. */
  ghost predicate Least(used: seq<bool>, pid: nat) {
    pid < |used| && !used[pid] && forall p :: 0 <= p < pid ==> used[p]
  }

  lemma OutcomeDecides(used: seq<bool>, img: Image, fname: seq<char>)
    requires WellFormed(img)
    ensures var name, o := CString(fname), ExecuteOutcome(used, img, fname);
            && (o.Launched? <==> Startable(img, name) && !Full(used))
            && (o.TableFull? <==> Present(img, name) && Full(used))
            && (Startable(img, name) ==> Present(img, name))
  {
    hide Stored, CString, NameOf, WellFormed;
    var k := LastNamed(img.dentries, CString(fname));
    if k >= 0 {
      assert LastOf(img, CString(fname), k);
      if img.dentries[k].inode < |img.inodes| {
        MagicIs(img, img.dentries[k].inode);
      }
    }
  }

  lemma OutcomeIs(used: seq<bool>, img: Image, fname: seq<char>, k: int, pid: nat)
    requires WellFormed(img) && LastOf(img, CString(fname), k) && Least(used, pid)
    requires ExecuteOutcome(used, img, fname).Launched?
    ensures var inode := img.dentries[k].inode;
            && Executable(img, inode)
            && ExecuteOutcome(used, img, fname) == Launched(pid, Stored(img, inode)[24..28])
  {
    hide Stored, CString, NameOf, Executable, WellFormed;
    assert LastNamed(img.dentries, CString(fname)) == k && FirstFree(used) == pid;
    MagicIs(img, img.dentries[k].inode);
  }

  /** A file that is entered: which slot it takes and where it starts. */
  ghost predicate EntersAt(t: Table, img: Image, r: Table, effect: Effect, k: int, pid: nat)
    requires WellFormed(img) && 0 <= k < |img.dentries| && pid < |t.used| && t.visible < |t.current|
  {
    var inode := img.dentries[k].inode;
    && Executable(img, inode)
    && effect == Entered(Stored(img, inode)[24..28])
    && r.used == t.used[pid := true] && r.current == t.current[t.visible := pid]
  }

  /**
   * A program is entered exactly when the last file of its name is executable and a slot is free. It takes the lowest
   * one, is filed under the terminal on screen, and starts at the address in bytes 24 to 27 of the file. A name that
   * is missing, and a file that is no executable, give -1; a name that is there when the table is full gives 0.
   */
  ghost predicate Decided(t: Table, img: Image, name: seq<char>, r: Table, effect: Effect)
    requires Shape(t) && WellFormed(img)
  {
    && (effect.Entered? <==> Startable(img, name) && !Full(t.used))
    && (effect == Returned(0) <==> Present(img, name) && Full(t.used))
    && (effect == Returned(-1) <==> !Present(img, name) || (!Startable(img, name) && !Full(t.used)))
    && (!effect.Entered? ==> r == t)
    && (forall k: int, pid: nat :: effect.Entered? && LastOf(img, name, k) && Least(t.used, pid) ==>
          EntersAt(t, img, r, effect, k, pid))
  }

  lemma ExecuteDecides(t: Table, img: Image, fname: seq<char>, here: Context)
    requires Shape(t) && WellFormed(img)
    ensures var (r, effect) := ExecuteStep(t, img, fname, here);
            Decided(t, img, CString(fname), r, effect)
  {
    hide ExecuteOutcome, Executable, Startable, Present, Full;
    OutcomeDecides(t.used, img, fname);
    var (r, effect) := ExecuteStep(t, img, fname, here);
    forall k: int, pid: nat | effect.Entered? && LastOf(img, CString(fname), k) && Least(t.used, pid)
      ensures EntersAt(t, img, r, effect, k, pid)
    {
      OutcomeIs(t.used, img, fname, k, pid);
    }
  }

  lemma MagicIs(img: Image, inode: nat)
    requires WellFormed(img) && inode < |img.inodes|
    ensures Stored(img, inode)[..4] == ELF_MAGIC <==> Executable(img, inode)
  {
    var first := Stored(img, inode)[..4];
    assert forall k :: 0 <= k < 4 ==> first[k] == Stored(img, inode)[k];
    assert first == [first[0], first[1], first[2], first[3]];
  }

  function HaltStep(t: Table): (r: (Table, Effect))
    requires Shape(t)
    ensures SameSize(t, r.0)
  {
    var s := t.scheduled;
    var pid := t.current[s];
    if pid < |t.current| then (t, Entered(t.pcbs[pid].entry))
    else
      var parent := t.parentOf[s];
      (t.(used := t.used[pid := false],
          current := t.current[s := parent],
          parentOf := t.parentOf[s := t.pcbs[parent].parent],
          frame := FrameOf(parent),
          esp0 := KernelStackTop(parent)),
       Resumed(t.pcbs[parent].resume))
  }

  function TickStep(t: Table, img: Image, here: Context): (r: (Table, Effect))
    requires Shape(t) && WellFormed(img)
    ensures SameSize(t, r.0)
  {
    var leaving := t.current[t.scheduled];
    var next := (t.scheduled + 1) % |t.current|;
    var t1 := t.(scheduled := next, pcbs := t.pcbs[leaving := t.pcbs[leaving].(preempted := here)]);
    if next != 0 && !t.started[next] then
      ExecuteStep(t1.(visible := next, started := t.started[next := true]), img, SHELL, here)
    else
      var pid := t.current[next];
      (t1.(visible := if t.booted then t.visible else 0,
           booted := true,
           frame := FrameOf(pid),
           esp0 := KernelStackTop(pid)),
       Resumed(t1.pcbs[pid].preempted))
  }

  function Step(t: Table, img: Image, e: Event): (r: (Table, Effect))
    requires Shape(t) && WellFormed(img) && (e.Show? ==> e.terminal < |t.current|)
    ensures SameSize(t, r.0)
  {
    match e
    case Execute(fname, here) => ExecuteStep(t, img, fname, here)
    case Halt => HaltStep(t)
    case Tick(here) => TickStep(t, img, here)
    case Show(terminal) => (t.(visible := terminal), Continued)
  }
}
