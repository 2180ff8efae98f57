/** What runs leave alone: three ticks return to the start, a halt undoes its execute, a stack is
    restored when its height is, and a waiting terminal's processes are not touched. */
module Calls {
  import opened Layout
  import opened FileTable
  import opened Processes
  import opened Scheduling

  // ---------- fairness ----------

  /** The ring order of three different pids, as seen from number c. */
  function NextOf(tops: seq<Pid>, c: Terminal): Terminal
    requires |tops| == NUM_TERMINALS
  {
    var t, u := After(c), After(After(c));
    if Ahead(tops[c], tops[t]) < Ahead(tops[c], tops[u]) then t else u
  }

  lemma RingOrder(tops: seq<Pid>, c: Terminal)
    requires |tops| == NUM_TERMINALS && tops[0] != tops[1] && tops[1] != tops[2] && tops[0] != tops[2]
    ensures var d := NextOf(tops, c); var e := NextOf(tops, d);
      c != d && d != e && e != c && NextOf(tops, e) == c
  {
    hide Ahead;
    Rotate(tops[0], tops[1], tops[2]);
    Rotate(tops[1], tops[2], tops[0]);
    Rotate(tops[0], tops[2], tops[1]);
    Rotate(tops[2], tops[1], tops[0]);
  }

  lemma Rotate(x: Pid, y: Pid, z: Pid)
    requires x != y && y != z && x != z
    ensures Ahead(x, y) < Ahead(x, z) <==> Ahead(y, z) < Ahead(y, x)
  {
  }

  /** Three different tops are visited in cyclic order, each once, and then the first again. */
  lemma RoundRobinOrder(a: Procs)
    requires Stacked(a)
    ensures var b := a.(curr := NextTerminal(a)); var c := b.(curr := NextTerminal(b));
      a.curr != b.curr && b.curr != c.curr && c.curr != a.curr && NextTerminal(c) == a.curr
  {
    TopsAreDistinctPids(a, 0, 1);
    TopsAreDistinctPids(a, 1, 2);
    TopsAreDistinctPids(a, 0, 2);
    var tops: seq<Pid> := [Top(a, 0), Top(a, 1), Top(a, 2)];
    RingOrder(tops, a.curr);
    OrderOfTops(a, tops);
    var b := a.(curr := NextTerminal(a));
    OrderOfTops(b, tops);
    OrderOfTops(b.(curr := NextTerminal(b)), tops);
  }

  lemma OrderOfTops(a: Procs, tops: seq<Pid>)
    requires Stacked(a) && |tops| == NUM_TERMINALS
    requires tops[0] == Top(a, 0) && tops[1] == Top(a, 1) && tops[2] == Top(a, 2)
    ensures NextTerminal(a) == NextOf(tops, a.curr)
  {
  }

  /** With nothing in between, three consecutive ticks run each terminal once and return the whole
      machine state to where it was. */
  lemma ThreeTicksReturn(s: KState, a: Procs)
    requires Represents(s, a) && PageAgrees(s)
    ensures CanTick(s) && CanTick(TickStep(s)) && CanTick(TickStep(TickStep(s)))
    ensures TickStep(TickStep(TickStep(s))) == s
    ensures {s.curr, TickStep(s).curr, TickStep(TickStep(s)).curr} == {0, 1, 2}
  {
    hide Represents, TickStep, NextTerminal, NoDuplicates, Disjoint;
    OwnStack(s, a);
    RoundRobinOrder(a);
    var b := a.(curr := NextTerminal(a));
    var c := b.(curr := NextTerminal(b));
    TickOnlySwitches(s, a);
    var s1 := TickStep(s);
    TickOnlySwitches(s1, b);
    TickOnlySwitches(TickStep(s1), c);
  }

  lemma OwnStack(s: KState, a: Procs)
    requires Represents(s, a)
    ensures Shape(s) && Stacked(a) && s.curr == a.curr && s.esp0 == KernelStackTop(s.top[s.curr])
  {
  }

  lemma TickOnlySwitches(s: KState, a: Procs)
    requires Represents(s, a)
    ensures CanTick(s) && Represents(TickStep(s), a.(curr := NextTerminal(a)))
    ensures var t := NextTerminal(a);
      TickStep(s) == s.(curr := t, page := PageEntry(s.top[t]), esp0 := KernelStackTop(s.top[t]))
  {
    TickRefines(s, a);
    assert AbsStep(a, Tick).curr == NextTerminal(a);
  }

  // ---------- execute and halt ----------

  /** A successful execute followed by the new process's halt restores every part of the state but
      the control block of the process that came and went; the parent is a leaf again. */
  lemma HaltUndoesExecute(s: KState, a: Procs, depth: Depth, shellReadable: bool)
    requires Represents(s, a) && PageAgrees(s) && FirstUnused(a, 0) < MAX_OPEN_PROCESSES
    ensures CanExec(s, depth) && CanHalt(ExecStep(s, depth, Loads))
    ensures var child := ExecStep(s, depth, Loads); var back := HaltStep(child, shellReadable);
      var pid := FirstUnused(a, 0);
      && back == s.(pcbs := back.pcbs)
      && (forall p :: 0 <= p < MAX_OPEN_PROCESSES && p != pid ==> back.pcbs[p] == s.pcbs[p])
      && child.pcbs[pid].files == FreshTable() && child.pcbs[pid].parent == s.top[s.curr]
  {
    CallerIsRunning(s, a, depth);
    RunningBlock(s, a);
    FreeSlotAgrees(s, a, 0);
    SpawnThenHalt(s, s.top[s.curr], FirstUnused(a, 0), shellReadable);
  }

  lemma SpawnThenHalt(s: KState, me: Pid, pid: Pid, shellReadable: bool)
    requires Shape(s) && PageAgrees(s) && me == s.top[s.curr] && me != pid && !s.live[pid]
    requires s.pcbs[me].pid == me && s.pcbs[me].terminal == s.curr && s.pcbs[me].leaf
    requires s.esp0 == KernelStackTop(me)
    ensures var child := Spawn(s, me, pid);
      CanHalt(child) && var back := HaltStep(child, shellReadable);
      && back == s.(pcbs := back.pcbs)
      && forall p :: 0 <= p < MAX_OPEN_PROCESSES && p != pid ==> back.pcbs[p] == s.pcbs[p]
  {
    var child := Spawn(s, me, pid);
    assert child.top == s.top[s.curr := pid];
    assert child.pcbs[pid].parent == me;
    var back := HaltStep(child, shellReadable);
    assert back.live == s.live;
    assert back.top == s.top;
    assert back.pcbs[me] == s.pcbs[me];
  }

  /** Terminal t's stack is at least h high after every beginning of `more`. */
  ghost predicate StaysAbove(es: seq<Event>, more: seq<Event>, t: Terminal, h: nat) {
    forall k :: 0 <= k <= |more| ==> Height(AbsRun(es + more[..k]), t) >= h
  }

  lemma StaysAboveBefore(es: seq<Event>, more: seq<Event>, t: Terminal, h: nat, n: nat)
    requires StaysAbove(es, more, t, h) && n <= |more|
    ensures StaysAbove(es, more[..n], t, h) && Height(AbsRun(es), t) >= h && Height(AbsRun(es + more[..n]), t) >= h
  {
    assert es + more[..0] == es;
    forall k | 0 <= k <= n
      ensures Height(AbsRun(es + more[..n][..k]), t) >= h
    {
      assert more[..n][..k] == more[..k];
    }
  }

  lemma StepKeepsBelow(a: Procs, e: Event, t: Terminal, h: nat)
    requires Stacked(a) && h <= Height(a, t) && h <= Height(AbsStep(a, e), t)
    ensures AbsStep(a, e).stacks[t][..h] == a.stacks[t][..h]
  {
  }

  /** As long as a terminal's stack does not drop below h, its bottom h processes stay, whatever
      else happens in this terminal and in the others. */
  lemma {:induction false} BottomStays(es: seq<Event>, more: seq<Event>, t: Terminal, h: nat)
    requires StaysAbove(es, more, t, h)
    ensures Height(AbsRun(es), t) >= h && Height(AbsRun(es + more), t) >= h
    ensures AbsRun(es + more).stacks[t][..h] == AbsRun(es).stacks[t][..h]
  {
    StaysAboveBefore(es, more, t, h, |more|);
    assert more[..|more|] == more;
    if more == [] {
      assert es + more == es;
    } else {
      var n := |more| - 1;
      StaysAboveBefore(es, more, t, h, n);
      BottomStays(es, more[..n], t, h);
      LastOne(es, more);
      AbsRunStep(es + more[..n], more[n]);
      StepKeepsBelow(AbsRun(es + more[..n]), more[n], t, h);
    }
  }

  /** A balanced run of executes and halts in a terminal restores its stack, also when ticks and
      other terminals' calls come in between. */
  lemma BalancedCallsRestoreTheStack(es: seq<Event>, more: seq<Event>, t: Terminal)
    requires StaysAbove(es, more, t, Height(AbsRun(es), t))
    requires Height(AbsRun(es + more), t) == Height(AbsRun(es), t)
    ensures AbsRun(es + more).stacks[t] == AbsRun(es).stacks[t]
  {
    var h := Height(AbsRun(es), t);
    BottomStays(es, more, t, h);
    assert AbsRun(es + more).stacks[t][..h] == AbsRun(es + more).stacks[t];
    assert AbsRun(es).stacks[t][..h] == AbsRun(es).stacks[t];
  }

  // ---------- isolation ----------

  /** The part of the state that belongs to terminal b: its active process and the control blocks,
      with their file arrays, of the processes on its stack. */
  ghost predicate SameTerminal(s: KState, s': KState, q: seq<int>, b: Terminal)
    requires Shape(s) && Shape(s') && IsStack(q, b)
  {
    s'.top[b] == s.top[b] && forall p: Pid :: p in q ==> s'.pcbs[p] == s.pcbs[p]
  }

  lemma StepLeavesOthersAlone(s: KState, a: Procs, e: Event, b: Terminal)
    requires Represents(s, a) && a.curr != b
    ensures CanStep(s, e) && Shape(Step(s, e)) && IsStack(a.stacks[b], b)
    ensures AbsStep(a, e).stacks[b] == a.stacks[b] && SameTerminal(s, Step(s, e), a.stacks[b], b)
  {
    hide Stores, NoDuplicates, Disjoint;
    assert IsStack(a.stacks[b], b);
    match e
    case Tick => TickRefines(s, a);
    case Files(table) => FilesLeaveOthersAlone(s, a, table, b);
    case Exec(depth, image) => ExecLeavesOthersAlone(s, a, depth, image, b);
    case Halt(shellReadable) => HaltLeavesOthersAlone(s, a, shellReadable, b);
  }

  /** The running process is on no other terminal's stack. */
  lemma RunningIsElsewhere(s: KState, a: Procs, b: Terminal)
    requires Represents(s, a) && a.curr != b
    ensures 0 <= s.top[s.curr] < MAX_OPEN_PROCESSES && s.top[s.curr] !in a.stacks[b] && IsStack(a.stacks[b], b)
    ensures Describes(s.pcbs[s.top[s.curr]], a.stacks[a.curr], a.curr, Height(a, a.curr) - 1)
    ensures s.pcbs[s.top[s.curr]].parent !in a.stacks[b]
  {
    var c := a.stacks[a.curr];
    RunningBlock(s, a);
    assert IsStack(a.stacks[b], b) && IsStack(c, a.curr) && Disjoint(c, a.stacks[b]);
    assert s.top[s.curr] in c;
    assert |c| > 1 ==> c[|c| - 2] in c;
  }

  lemma FilesLeaveOthersAlone(s: KState, a: Procs, table: Table, b: Terminal)
    requires Represents(s, a) && a.curr != b
    ensures CanTouchFiles(s) && IsStack(a.stacks[b], b) && SameTerminal(s, FilesStep(s, table), a.stacks[b], b)
  {
    RunningIsElsewhere(s, a, b);
  }

  lemma ExecLeavesOthersAlone(s: KState, a: Procs, depth: Depth, image: Loading, b: Terminal)
    requires Represents(s, a) && a.curr != b
    ensures CanExec(s, depth) && IsStack(a.stacks[b], b) && SameTerminal(s, ExecStep(s, depth, image), a.stacks[b], b)
  {
    RunningIsElsewhere(s, a, b);
    CallerIsRunning(s, a, depth);
    FreeSlotAgrees(s, a, 0);
    if FirstUnused(a, 0) < MAX_OPEN_PROCESSES {
      SpawnLeavesOthersAlone(s, s.top[s.curr], FirstUnused(a, 0), a.stacks[b], b);
    }
  }

  lemma SpawnLeavesOthersAlone(s: KState, me: Pid, pid: Pid, q: seq<int>, b: Terminal)
    requires Shape(s) && IsStack(q, b) && me !in q && pid !in q && s.curr != b && s.pcbs[me].terminal == s.curr
    ensures SameTerminal(s, Spawn(s, me, pid), q, b)
  {
  }

  lemma HaltLeavesOthersAlone(s: KState, a: Procs, shellReadable: bool, b: Terminal)
    requires Represents(s, a) && a.curr != b
    ensures CanHalt(s) && IsStack(a.stacks[b], b) && SameTerminal(s, HaltStep(s, shellReadable), a.stacks[b], b)
  {
    RunningIsElsewhere(s, a, b);
  }

  /** While a terminal waits, nothing the others do changes its stack, its active process or any of
      its processes' control blocks and descriptors. */
  lemma {:induction false} WaitingTerminalIsUntouched(memory: seq<Pcb>, es: seq<Event>, more: seq<Event>, b: Terminal)
    requires |memory| == MAX_OPEN_PROCESSES && Waits(es, more, b)
    ensures AbsRun(es + more).stacks[b] == AbsRun(es).stacks[b] && IsStack(AbsRun(es).stacks[b], b)
    ensures SameTerminal(Run(memory, es), Run(memory, es + more), AbsRun(es).stacks[b], b)
  {
    var q := AbsRun(es).stacks[b];
    assert IsStack(q, b);
    if more == [] {
      assert es + more == es;
    } else {
      var n := |more| - 1;
      WaitsBefore(es, more, b, n);
      var mid := es + more[..n];
      WaitingTerminalIsUntouched(memory, es, more[..n], b);
      LastOne(es, more);
      WaitingStep(memory, mid, more[n], b);
      SameTerminalTwice(Run(memory, es), Run(memory, mid), Run(memory, es + more), q, b);
    }
  }

  lemma SameTerminalTwice(s: KState, s': KState, s'': KState, q: seq<int>, b: Terminal)
    requires Shape(s) && Shape(s') && Shape(s'') && IsStack(q, b)
    requires SameTerminal(s, s', q, b) && SameTerminal(s', s'', q, b)
    ensures SameTerminal(s, s'', q, b)
  {
  }

  lemma WaitingStep(memory: seq<Pcb>, es: seq<Event>, e: Event, b: Terminal)
    requires |memory| == MAX_OPEN_PROCESSES && AbsRun(es).curr != b
    ensures AbsRun(es + [e]).stacks[b] == AbsRun(es).stacks[b] && IsStack(AbsRun(es).stacks[b], b)
    ensures SameTerminal(Run(memory, es), Run(memory, es + [e]), AbsRun(es).stacks[b], b)
  {
    AbsRunStep(es, e);
    RunStep(memory, es, e);
    StepLeavesOthersAlone(Run(memory, es), AbsRun(es), e, b);
  }
}
