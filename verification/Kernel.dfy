/** The kernel's global arrays, changed in place by the system calls and the timer interrupt. Each
    method is proved to make exactly the step that module Processes describes. */
module Kernel {
  import opened Layout
  import opened FileTable
  import opened Processes

  class Machine {
    const processArray: array<bool>
    const terminalArray: array<int>
    const pcbs: array<Pcb>
    var currTerminal: int
    var userPage: int
    var esp0: int

    ghost predicate Valid()
      reads this
    {
      processArray.Length == MAX_OPEN_PROCESSES && terminalArray.Length == NUM_TERMINALS
      && pcbs.Length == MAX_OPEN_PROCESSES && 0 <= currTerminal < NUM_TERMINALS
    }

    ghost function State(): (s: KState)
      requires Valid()
      reads this, processArray, terminalArray, pcbs
      ensures Shape(s)
    {
      KState(processArray[..], terminalArray[..], currTerminal, pcbs[..], userPage, esp0)
    }

    constructor ()
      ensures Valid() && fresh(processArray) && fresh(terminalArray) && fresh(pcbs)
      ensures State().top == [-1, -1, -1] && State().live == seq(MAX_OPEN_PROCESSES, _ => false)
    {
      processArray := new bool[MAX_OPEN_PROCESSES](_ => false);
      terminalArray := new int[NUM_TERMINALS](_ => -1);
      pcbs := new Pcb[MAX_OPEN_PROCESSES](_ => Pcb(0, false, 0, 0, FreshTable()));
      currTerminal, userPage, esp0 := 0, 0, K_MEM_END;
    }

    /** Every user address now reaches the pid's own 4 MB frame. */
    method ChangeProcess(pid: Pid)
      modifies this`userPage
      ensures userPage == PageEntry(pid)
      ensures forall v :: Translate(userPage, v) == (pid + 2) * FOUR_MB + (v - USER_PAGE_START)
    {
      EntryBase(pid);
      userPage := (pid + 2) * FOUR_MB + USER_PAGE_FLAGS;
    }

    method GetNextPid() returns (i: nat)
      requires Valid()
      ensures i == NextFree(processArray[..], 0)
    {
      i := 0;
      // The source reads one entry past the end of a full table before it compares i; either value
      // of that word stops the loop at 6.
      while i < MAX_OPEN_PROCESSES && processArray[i]
        invariant i <= MAX_OPEN_PROCESSES
        invariant NextFree(processArray[..], 0) == NextFree(processArray[..], i)
      {
        i := i + 1;
      }
    }

    /** The one boot call: `found` is whether the shell is in the image, `loads` whether it loads. */
    method ExecuteShells(found: bool, loads: bool) returns (r: int)
      requires Valid() && State().live == seq(MAX_OPEN_PROCESSES, _ => false)
      modifies this, processArray, terminalArray, pcbs
      ensures Valid()
      ensures !found ==> r == -1 && State() == old(State())
      ensures found && !loads ==> r == -1 && State() == old(State()).(
        live := old(State()).live[2 := true], top := old(State()).top[2 := 2], page := PageEntry(2))
      ensures found && loads ==> r == 0 && State() == Boot(old(pcbs[..]))
    {
      if !found {
        return -1;
      }
      var i := NUM_TERMINALS - 1;
      while i >= 0
        invariant -1 <= i < NUM_TERMINALS && (!loads ==> i == 2)
        invariant Valid() && currTerminal == old(currTerminal)
        invariant forall k :: 0 <= k < MAX_OPEN_PROCESSES ==> processArray[k] == (i < k <= 2)
        invariant forall k :: 0 <= k < NUM_TERMINALS ==> terminalArray[k] == if i < k then k else old(terminalArray[k])
        invariant forall k :: 0 <= k < MAX_OPEN_PROCESSES ==> pcbs[k] == if i < k <= 2 then BaseShell(k)
            else old(pcbs[k])
        invariant if i == 2 then userPage == old(userPage) && esp0 == old(esp0)
                  else userPage == PageEntry(i + 1) && esp0 == KernelStackTop(i + 1)
      {
        var ok := StartShell(i, loads);
        if !ok {
          return -1;
        }
        i := i - 1;
      }
      currTerminal := pcbs[0].terminal;
      r := 0;
    }

    /** One round of the loop of execute_shells. */
    method StartShell(i: int, loads: bool) returns (ok: bool)
      requires Valid() && 0 <= i < NUM_TERMINALS
      modifies this, processArray, terminalArray, pcbs
      ensures Valid() && ok == loads
      ensures State() == old(State()).(
        live := old(processArray[..])[i := true], top := old(terminalArray[..])[i := i], page := PageEntry(i),
        esp0 := if loads then KernelStackTop(i) else old(esp0),
        pcbs := if loads then old(pcbs[..])[i := BaseShell(i)] else old(pcbs[..]))
    {
      terminalArray[i] := i;
      processArray[i] := true;
      ChangeProcess(i);
      if !loads {
        return false;
      }
      var files := ShellTable(i);
      pcbs[i] := Pcb(i, true, -1, i, files);
      esp0 := K_MEM_END - i * K_STACK_SIZE - WORD_SIZE;
      ok := true;
    }

    /** The descriptor loop of execute_shells. */
    method ShellTable(terminal: int) returns (files: Table)
      ensures files == BaseShellTable(terminal)
    {
      files := FreshTable();
      var k := 0;
      while k < MAX_OPEN_FILES
        invariant 0 <= k <= MAX_OPEN_FILES
        invariant forall j :: 0 <= j < k ==> files[j] == BaseShellTable(terminal)[j]
      {
        var ops := if k == 0 then StdIn else if k == 1 then StdOut else NoFunc;
        files := files[k := Fd(ops, 0, -1, 0, if terminal < STD_FILES then 1 else 0)];
        k := k + 1;
      }
    }

    /** The descriptor loop of execute. */
    method ProcessTable() returns (files: Table)
      ensures files == FreshTable()
    {
      files := BaseShellTable(0);
      var i := 0;
      while i < MAX_OPEN_FILES
        invariant 0 <= i <= MAX_OPEN_FILES
        invariant forall j :: 0 <= j < i ==> files[j] == FreshTable()[j]
      {
        var ops := if i == 0 then StdIn else if i == 1 then StdOut else NoFunc;
        files := files[i := Fd(ops, 0, -1, 0, if i < STD_FILES then 1 else 0)];
        i := i + 1;
      }
    }

    method Execute(depth: Depth, image: Loading, ghost a: Procs) returns (r: int)
      requires Valid() && Represents(State(), a)
      modifies this, processArray, terminalArray, pcbs
      ensures Valid() && CanExec(old(State()), depth) && State() == ExecStep(old(State()), depth, image)
      ensures Represents(State(), AbsStep(a, Exec(depth, image)))
      ensures r == -1 <==> image != Loads || forall p :: 0 <= p < MAX_OPEN_PROCESSES ==> old(processArray[p])
    {
      ghost var s := State();
      ExecRefines(s, a, depth, image);
      CallerBlock(s, a, depth);
      var me := FindCaller(depth);
      var pid := GetNextPid();
      if pid >= MAX_OPEN_PROCESSES {
        return -1;
      }
      assert !s.live[pid];
      if image == NotExecutable {
        return -1;
      }
      ChangeProcess(pid);
      if image == LoadFails {
        return -1;
      }
      SetUpProcess(me, pid);
      assert State() == Spawn(s, me, pid);
      r := 0;
    }

    /** The control block below the current stack pointer. */
    method FindCaller(depth: Depth) returns (me: int)
      requires Valid()
      ensures me == Caller(State(), depth)
    {
      me := PcbIndex(MaskToPcb(esp0 - depth));
    }

    /** The part of execute that enters the new process into the tables. */
    method SetUpProcess(me: Pid, pid: Pid)
      requires Valid() && 0 <= pcbs[me].terminal < NUM_TERMINALS && me != pid && userPage == PageEntry(pid)
      modifies this, processArray, terminalArray, pcbs
      ensures Valid() && State() == Spawn(old(State()), me, pid)
    {
      processArray[pid] := true;
      terminalArray[currTerminal] := pid;
      var files := ProcessTable();
      var terminal := pcbs[me].terminal;
      pcbs[me] := pcbs[me].(leaf := false);
      pcbs[pid] := Pcb(pid, true, pcbs[me].pid, terminal, files);
      terminalArray[pcbs[me].terminal] := pid;
      esp0 := K_MEM_END - pid * K_STACK_SIZE - WORD_SIZE;
    }

    /** The loop of halt over the file array of process p. */
    method CloseLeadingFiles(p: Pid)
      requires Valid()
      modifies pcbs
      ensures pcbs[..] == old(pcbs[..])[p := old(pcbs[p]).(files := CloseFrom(old(pcbs[p].files), 0))]
    {
      var i := 0;
      while i < MAX_OPEN_FILES && IsOpen(pcbs[p].files[i])
        invariant 0 <= i <= MAX_OPEN_FILES
        invariant CloseFrom(old(pcbs[p].files), 0) == CloseFrom(pcbs[p].files, i)
        invariant pcbs[..] == old(pcbs[..])[p := old(pcbs[p]).(files := pcbs[p].files)]
      {
        pcbs[p] := pcbs[p].(files := pcbs[p].files[i := Closed(pcbs[p].files[i])]);
        i := i + 1;
      }
    }

    method Halt(shellReadable: bool, ghost a: Procs)
      requires Valid() && Represents(State(), a)
      modifies this, processArray, terminalArray, pcbs
      ensures Valid() && CanHalt(old(State())) && State() == HaltStep(old(State()), shellReadable)
      ensures Represents(State(), AbsStep(a, Event.Halt(shellReadable)))
      ensures Height(a, a.curr) > 1 ==>
        var p := old(terminalArray[currTerminal]);
        0 <= p < MAX_OPEN_PROCESSES
        && forall k :: 0 <= k < MAX_OPEN_FILES ==> HaltsFile(old(pcbs[..])[p].files, pcbs[..][p].files, k)
    {
      HaltRefines(State(), a, shellReadable);
      HaltEffect(State(), a, shellReadable);
      RunningBlock(State(), a);
      var p := terminalArray[currTerminal];
      var parent := pcbs[p].parent;
      if parent < 0 {
        if shellReadable {
          esp0 := KernelStackTop(p);
        }
        return;
      }
      CloseLeadingFiles(p);
      ChangeProcess(parent);
      esp0 := K_MEM_END - K_STACK_SIZE * parent - WORD_SIZE;
      processArray[p] := false;
      terminalArray[currTerminal] := parent;
      pcbs[parent] := pcbs[parent].(leaf := true);
    }

    /** The loop of pit_int: the next live leaf after `current`, or `current` itself. */
    method FindNextLeaf(current: Pid) returns (next: Pid)
      requires Valid()
      ensures next == Scan(State(), current, 1)
    {
      hide Ahead;
      next := (current + 1) % MAX_OPEN_PROCESSES;
      ghost var d := 1;
      OneFurther(current, d);
      while next != current && !(processArray[next] && pcbs[next].leaf)
        invariant 1 <= d <= MAX_OPEN_PROCESSES && next == Ring(current, d)
        invariant Scan(State(), current, 1) == Scan(State(), current, d)
        decreases MAX_OPEN_PROCESSES - d
      {
        OneFurther(current, d);
        assert !Runnable(State(), next);
        next := (next + 1) % MAX_OPEN_PROCESSES;
        d := d + 1;
      }
      OneFurther(current, d);
    }

    /** The part of pit_int that makes another process the running one. */
    method SwitchTo(next: Pid)
      requires Valid() && 0 <= pcbs[next].terminal < NUM_TERMINALS
      modifies this
      ensures Valid()
      ensures State() == old(State()).(
        page := PageEntry(next), esp0 := KernelStackTop(next), curr := old(State()).pcbs[next].terminal)
    {
      ChangeProcess(next);
      esp0 := K_MEM_END - K_STACK_SIZE * next - WORD_SIZE;
      currTerminal := pcbs[next].terminal;
    }

    method PitInt(ghost a: Procs)
      requires Valid() && (State().top[State().curr] == -1 || Represents(State(), a))
      modifies this
      ensures Valid() && CanTick(old(State())) && State() == TickStep(old(State()))
      ensures old(State()).top[old(State()).curr] == -1 ==> State() == old(State())
      ensures old(State()).top[old(State()).curr] != -1 ==>
        Represents(State(), AbsStep(a, Tick)) && PageAgrees(State()) && currTerminal != old(currTerminal)
    {
      ghost var s := State();
      var current := terminalArray[currTerminal];
      if current == -1 {
        return;
      }
      TickRefines(s, a);
      NextIsOnATerminal(s, a);
      var next := FindNextLeaf(current);
      if next == current {
        return;
      }
      SwitchTo(next);
    }
  }

  /** The scan's steps: `% 6` goes round the ring, and a full turn comes back. */
  lemma OneFurther(current: Pid, d: int)
    requires 1 <= d <= MAX_OPEN_PROCESSES
    ensures (current + 1) % MAX_OPEN_PROCESSES == Ring(current, 1)
    ensures d < MAX_OPEN_PROCESSES ==> (Ring(current, d) + 1) % MAX_OPEN_PROCESSES == Ring(current, d + 1)
    ensures Ring(current, d) == current <==> d == MAX_OPEN_PROCESSES
  {
  }

  /** What a tick finds is a process of some terminal. */
  lemma NextIsOnATerminal(s: KState, a: Procs)
    requires Represents(s, a)
    ensures CanTick(s) && s.top[s.curr] >= 0 && 0 <= s.pcbs[Scan(s, s.top[s.curr], 1)].terminal < NUM_TERMINALS
  {
    RunningBlock(s, a);
    TickRefines(s, a);
  }

  /** Masking the stack pointer finds a live process on some terminal. */
  lemma CallerBlock(s: KState, a: Procs, depth: Depth)
    requires Represents(s, a)
    ensures CanExec(s, depth) && 0 <= Caller(s, depth) < MAX_OPEN_PROCESSES && s.live[Caller(s, depth)]
    ensures 0 <= s.pcbs[Caller(s, depth)].terminal < NUM_TERMINALS
  {
    RunningBlock(s, a);
    CallerIsRunning(s, a, depth);
  }
}
