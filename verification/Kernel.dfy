/** The handlers as they run: arrays updated in place, one method a handler, each proved to be its step. */
module Kernel {
  import opened Bytes
  import opened FileSystem
  import opened ProcessTable

  class Machine {
    const img: Image
    const pcbArr: array<bool>
    const pcbs: array<Pcb>
    const currPid: array<nat>
    const parentPid: array<nat>
    const instantiated: array<bool>
    var scheduledTerm: nat
    var currentTerminal: nat
    var doneInstantiating: bool
    var userFrame: nat
    var esp0: int

    ghost function View(): Table
      reads this, pcbArr, pcbs, currPid, parentPid, instantiated
    {
      Table(pcbArr[..], pcbs[..], currPid[..], parentPid[..], scheduledTerm, currentTerminal,
            userFrame, esp0, instantiated[..], doneInstantiating)
    }

    ghost predicate Valid()
      reads this, pcbArr, pcbs, currPid, parentPid, instantiated
    {
      pcbArr != instantiated && currPid != parentPid && Shape(View()) && WellFormed(img)
    }

    /** Whether any slot is free. */
    method AnyFree() returns (check: int)
      requires Valid()
      ensures check == -1 <==> FirstFree(pcbArr[..]) == pcbArr.Length
    {
      check := -1;
      var i := 0;
      while i < pcbArr.Length
        invariant 0 <= i <= pcbArr.Length
        invariant check == -1 <==> forall p :: 0 <= p < i ==> pcbArr[p]
      {
        if !pcbArr[i] {
          check := 1;
        }
        i := i + 1;
      }
    }

    /** Take the lowest free slot. */
    method Allocate() returns (pid: int)
      requires Valid()
      modifies pcbArr
      ensures pid == -1 ==> pcbArr[..] == old(pcbArr[..])
      ensures pid == -1 <==> FirstFree(old(pcbArr[..])) == pcbArr.Length
      ensures pid != -1 ==> pid == FirstFree(old(pcbArr[..])) && pcbArr[..] == old(pcbArr[..])[pid := true]
    {
      pid := -1;
      var i := 0;
      while i < pcbArr.Length
        invariant 0 <= i <= pcbArr.Length && pid == -1
        invariant pcbArr[..] == old(pcbArr[..])
        invariant forall p :: 0 <= p < i ==> pcbArr[p]
      {
        if !pcbArr[i] {
          pid := i;
          pcbArr[i] := true;
          break;
        }
        i := i + 1;
      }
    }

    /** Whether a file starts with the executable's magic number; -1 if it cannot be read. */
    method CheckMagic(inode: nat) returns (r: int)
      requires Valid()
      ensures r == -1 <==> inode >= |img.inodes|
      ensures r == 1 <==> inode < |img.inodes| && Stored(img, inode)[..4] == ELF_MAGIC
      ensures r == 1 <==> Executable(img, inode)
    {
      var buf := new char[4];
      var valid := ReadData(img, inode, 0, buf, 0, 4);
      if valid == -1 {
        return -1;
      }
      assert buf[..] == Stored(img, inode)[..4];
      MagicIs(img, inode);
      r := if buf[0] != ELF_MAGIC[0] || buf[1] != ELF_MAGIC[1] || buf[2] != ELF_MAGIC[2] || buf[3] != ELF_MAGIC[3]
           then 0 else 1;
    }

    /** The checks `execute` makes before it changes anything. */
    method Probe(fname: seq<char>) returns (failure: Effect, inode: nat)
      requires Valid() && NUL in fname
      ensures failure == Continued <==> Startable(img, CString(fname)) && !Full(pcbArr[..])
      ensures failure == Returned(0) <==> Present(img, CString(fname)) && Full(pcbArr[..])
      ensures failure.Continued? || failure == Returned(0) || failure == Returned(-1)
      ensures forall k :: failure == Continued && LastOf(img, CString(fname), k) ==> inode == img.dentries[k].inode
      ensures failure != Continued <==> !ExecuteOutcome(pcbArr[..], img, fname).Launched?
      ensures ExecuteOutcome(pcbArr[..], img, fname).Failed? ==> failure == Returned(-1)
      ensures ExecuteOutcome(pcbArr[..], img, fname).TableFull? ==> failure == Returned(0)
      ensures failure == Continued ==>
                inode < |img.inodes| && |Stored(img, inode)| >= ENTRY_OFFSET + 4
                && ExecuteOutcome(pcbArr[..], img, fname).entry == Stored(img, inode)[ENTRY_OFFSET..ENTRY_OFFSET + 4]
    {
      hide Stored, LastNamed, CString, FirstFree, NameOf, WellFormed, Startable, Present, Full, Executable;
      OutcomeDecides(pcbArr[..], img, fname);
      inode := 0;
      var index := FindDentry(img, fname);
      if index == -1 {
        return Returned(-1), 0;
      }
      inode := img.dentries[index].inode;
      var check := AnyFree();
      if check == -1 {
        return Returned(0), inode;
      }
      var magic := CheckMagic(inode);
      failure := if magic == 1 then Continued else Returned(-1);
    }

    /**
     * Load the program into the user page; returns the entry point found in its header. The load asks for a whole
     * page's worth from where the program starts in the page, so the memory here goes on beyond the page's end.
     */
    method Load(inode: nat) returns (valid: int, entry: seq<char>)
      requires Valid()
      ensures valid == -1 <==> inode >= |img.inodes|
      ensures valid != -1 ==>
                && valid == BlockEnd(img.inodes[inode].length)
                && entry == Stored(img, inode)[ENTRY_OFFSET..ENTRY_OFFSET + 4]
    {
      var page := new char[IMAGE_OFFSET + USER_PAGE];
      if inode < |img.inodes| {
        LoadGetsWholeFile(img, inode, USER_PAGE);
      }
      valid := ReadData(img, inode, 0, page, IMAGE_OFFSET, USER_PAGE);
      if valid == -1 {
        return valid, [];
      }
      var start := IMAGE_OFFSET + ENTRY_OFFSET;
      entry := page[start..start + 4];
      SplicedSlice(page[..], IMAGE_OFFSET, Stored(img, inode), ENTRY_OFFSET, 4);
    }

    /** File the new process under the terminal on screen and map its page. */
    method SetCurrent(pid: nat)
      requires Valid() && pid < pcbArr.Length
      modifies `userFrame, currPid, parentPid
      ensures currPid[..] == old(currPid[..])[currentTerminal := pid]
      ensures parentPid[..] == old(parentPid[..])[currentTerminal := old(currPid[currentTerminal])]
      ensures userFrame == FrameOf(pid)
    {
      parentPid[currentTerminal] := currPid[currentTerminal];
      currPid[currentTerminal] := pid;
      userFrame := (MB8 + MB4 * pid) / MB4 % 1024;
    }

    /** Fill in the new PCB and save in its parent where `halt` is to return. */
    method FillPcb(pid: nat, parent: nat, entry: seq<char>, here: Context)
      requires pid < pcbs.Length && parent < pcbs.Length
      modifies pcbs, `esp0
      ensures esp0 == KernelStackTop(pid)
      ensures var isShell := pid < currPid.Length;
              var link := if isShell then pid else parent;
              var filled := old(pcbs[..])[pid := old(pcbs[pid]).(parent := link, entry := entry)];
              pcbs[..] == if isShell then filled else filled[link := filled[link].(resume := here)]
    {
      if pid >= currPid.Length {
        pcbs[pid] := pcbs[pid].(parent := parent);
      } else {
        pcbs[pid] := pcbs[pid].(parent := pid);
      }
      esp0 := MB8 - KB8 * pid;
      var up := pcbs[pid].parent;
      pcbs[pid] := pcbs[pid].(entry := entry);
      if pid >= currPid.Length {
        pcbs[up] := pcbs[up].(resume := here);
      }
    }

    /** A failed `execute` changes nothing; once the slot is taken it cannot fail. */
    method Execute(fname: seq<char>, here: Context) returns (effect: Effect)
      requires Valid() && NUL in fname
      modifies this, pcbArr, pcbs, currPid, parentPid
      ensures Valid()
      ensures Decided(old(View()), img, CString(fname), View(), effect)
      ensures (View(), effect) == ExecuteStep(old(View()), img, fname, here)
      ensures effect.Returned? ==> View() == old(View())
    {
      hide FrameOf, WellFormed, FirstFree, Decided, CString, Startable, Full, Present, LastOf;
      ghost var t := View();
      ExecuteDecides(t, img, fname, here);
      var failure, inode := Probe(fname);
      if failure != Continued {
        return failure;
      }
      var newestPid := Allocate();
      if newestPid == -1 {
        assert false;
      }
      hide ExecuteOutcome;
      effect := Start(newestPid, inode, here);
      assert View() == Launch(t, newestPid, ExecuteOutcome(t.used, img, fname).entry, here);
    }

    /** From the slot taken on: file the process, load it, fill in its PCB. */
    method Start(newestPid: nat, inode: nat, here: Context) returns (effect: Effect)
      requires Valid() && newestPid < pcbArr.Length && pcbArr[newestPid] && inode < |img.inodes|
      requires |Stored(img, inode)| >= ENTRY_OFFSET + 4
      modifies this, pcbs, currPid, parentPid
      ensures Valid()
      ensures var entry := Stored(img, inode)[ENTRY_OFFSET..ENTRY_OFFSET + 4];
              View() == Launch(old(View()), newestPid, entry, here) && effect == Entered(entry)
    {
      hide FrameOf, WellFormed, Stored;
      ghost var t := View();
      assert t.used[newestPid := true] == t.used;
      SetCurrent(newestPid);
      var valid, entry := Load(inode);
      if valid == -1 {
        assert false;
      }
      FillPcb(newestPid, parentPid[currentTerminal], entry, here);
      effect := Entered(entry);
      assert View() == Launch(t, newestPid, entry, here);
    }

    /** A shell starts over; any other process gives way to its parent. */
    method Halt() returns (effect: Effect)
      requires Valid()
      modifies this, pcbArr, currPid, parentPid
      ensures Valid()
      ensures (View(), effect) == HaltStep(old(View()))
    {
      var pid := currPid[scheduledTerm];
      if pid < currPid.Length {
        return Entered(pcbs[pid].entry);
      }
      pcbArr[pid] := false;
      currPid[scheduledTerm] := parentPid[scheduledTerm];
      var parent := parentPid[scheduledTerm];
      parentPid[scheduledTerm] := pcbs[parent].parent;
      userFrame := (MB8 + MB4 * currPid[scheduledTerm]) / MB4 % 1024;
      esp0 := MB8 - KB8 * currPid[scheduledTerm];
      effect := Resumed(pcbs[parent].resume);
    }

    /** Save the context of the process preempted and move on to the next terminal. */
    method Preempt(here: Context)
      requires Valid()
      modifies `scheduledTerm, pcbs
      ensures Valid()
      ensures var t := old(View());
              var leaving := t.current[t.scheduled];
              View() == t.(scheduled := (t.scheduled + 1) % |t.current|,
                           pcbs := t.pcbs[leaving := t.pcbs[leaving].(preempted := here)])
    {
      hide WellFormed;
      ghost var t := View();
      var oldTerm := scheduledTerm;
      scheduledTerm := (scheduledTerm + 1) % currPid.Length;
      var leaving := currPid[oldTerm];
      pcbs[leaving] := pcbs[leaving].(preempted := here);
      assert pcbs[..] == t.pcbs[leaving := t.pcbs[leaving].(preempted := here)];
    }

    /** Show a terminal for the first time and execute its shell. */
    method StartShell(here: Context) returns (effect: Effect)
      requires Valid()
      modifies this, pcbArr, pcbs, currPid, parentPid, instantiated
      ensures Valid()
      ensures var t := old(View());
              (View(), effect) == ExecuteStep(
                t.(visible := t.scheduled, started := t.started[t.scheduled := true]), img, SHELL, here)
    {
      hide ExecuteStep, WellFormed;
      ghost var t := View();
      currentTerminal := scheduledTerm;
      instantiated[scheduledTerm] := true;
      assert View() == t.(visible := t.scheduled, started := t.started[t.scheduled := true]);
      effect := Execute(SHELL, here);
    }

    /** Map and resume the process the scheduled terminal runs. */
    method ResumeScheduled() returns (effect: Effect)
      requires Valid()
      modifies this
      ensures Valid()
      ensures var t := old(View());
              var pid := t.current[t.scheduled];
              && View() == t.(visible := if t.booted then t.visible else 0, booted := true,
                              frame := FrameOf(pid), esp0 := KernelStackTop(pid))
              && effect == Resumed(t.pcbs[pid].preempted)
    {
      if !doneInstantiating {
        currentTerminal := 0;
        doneInstantiating := true;
      }
      var nextPid := currPid[scheduledTerm];
      userFrame := (MB8 + MB4 * nextPid) / MB4 % 1024;
      esp0 := MB8 - KB8 * nextPid;
      effect := Resumed(pcbs[nextPid].preempted);
    }

    /** The timer: save the process preempted, and start or resume the next terminal's. */
    method PitHandler(here: Context) returns (effect: Effect)
      requires Valid()
      modifies this, pcbArr, pcbs, currPid, parentPid, instantiated
      ensures Valid()
      ensures (View(), effect) == TickStep(old(View()), img, here)
    {
      hide ExecuteStep, FrameOf, WellFormed;
      Preempt(here);
      if scheduledTerm != 0 && !instantiated[scheduledTerm] {
        effect := StartShell(here);
      } else {
        effect := ResumeScheduled();
      }
    }
  }

  /** Part of what was stored, read back from where it was stored. */
  lemma SplicedSlice(page: seq<char>, start: nat, stored: seq<char>, from: nat, n: nat)
    requires start + |stored| <= |page| && from + n <= |stored|
    requires forall k :: start <= k < start + |stored| ==> page[k] == stored[k - start]
    ensures page[start + from..start + from + n] == stored[from..from + n]
  {
  }
}
