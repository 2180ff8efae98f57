/** The process table, the per-terminal active processes and the control blocks, as the kernel
    stores them, with one function per atomic step. Abstractly they are three stacks of pids. */
module Processes {
  import opened Layout
  import opened FileTable

  datatype Pcb = Pcb(pid: int, leaf: bool, parent: int, terminal: int, files: Table)

  /** `live` is process_array, `top` is terminal_array, `page` the user page-directory entry. */
  datatype KState = KState(live: seq<bool>, top: seq<int>, curr: int, pcbs: seq<Pcb>, page: int, esp0: int)

  /** What execute finds behind a command: no such executable; one that passes the header check
      but does not load; one that loads. */
  datatype Loading = NotExecutable | LoadFails | Loads

  type Depth = d: nat | d <= K_STACK_SIZE - WORD_SIZE

  /** The atomic steps after boot. `depth` is how far below esp0 the stack pointer is during the
      call; `Files` is any change the running process makes to its own descriptors. */
  datatype Event =
    | Tick
    | Exec(depth: Depth, image: Loading)
    | Halt(shellReadable: bool)
    | Files(table: Table)

  predicate Shape(s: KState) {
    |s.live| == MAX_OPEN_PROCESSES && |s.top| == NUM_TERMINALS && |s.pcbs| == MAX_OPEN_PROCESSES
    && 0 <= s.curr < NUM_TERMINALS
  }

  predicate Runnable(s: KState, p: Pid)
    requires Shape(s)
  {
    s.live[p] && s.pcbs[p].leaf
  }

  // ---------- the steps on the stored state ----------

  /** get_next_pid: the first unused slot from i on, or 6. */
  function NextFree(live: seq<bool>, i: nat): (r: nat)
    requires |live| == MAX_OPEN_PROCESSES && i <= MAX_OPEN_PROCESSES
    ensures i <= r <= MAX_OPEN_PROCESSES
    ensures forall j :: i <= j < r ==> live[j]
    ensures r < MAX_OPEN_PROCESSES ==> !live[r]
    decreases |live| - i
  {
    if i < MAX_OPEN_PROCESSES && live[i] then NextFree(live, i + 1) else i
  }

  /** The pid that lies d steps forward of p around the ring. */
  function Ring(p: Pid, d: int): Pid
    requires 1 <= d <= MAX_OPEN_PROCESSES
  {
    if p + d < MAX_OPEN_PROCESSES then p + d else p + d - MAX_OPEN_PROCESSES
  }

  /** How many steps forward, around the ring of pids, from p to q (6 for a full turn). */
  function Ahead(p: Pid, q: Pid): (d: int)
    ensures 1 <= d <= MAX_OPEN_PROCESSES && Ring(p, d) == q
  {
    if q > p then q - p else q - p + MAX_OPEN_PROCESSES
  }

  /** pit_int's scan, d steps after the current pid: the first live leaf from there on around the
      ring, or the current pid itself when there is no other. */
  function Scan(s: KState, cur: Pid, d: nat): (r: Pid)
    requires Shape(s) && 1 <= d <= MAX_OPEN_PROCESSES
    ensures d <= Ahead(cur, r) && (Runnable(s, r) || r == cur)
    ensures forall p: Pid :: d <= Ahead(cur, p) < Ahead(cur, r) ==> !Runnable(s, p)
    decreases |s.live| - d
  {
    var p := Ring(cur, d);
    if d == MAX_OPEN_PROCESSES || Runnable(s, p) then p else Scan(s, cur, d + 1)
  }

  predicate CanTick(s: KState) {
    Shape(s) && -1 <= s.top[s.curr] < MAX_OPEN_PROCESSES
  }

  function TickStep(s: KState): KState
    requires CanTick(s)
  {
    if s.top[s.curr] == -1 then s
    else
      var next := Scan(s, s.top[s.curr], 1);
      if next == s.top[s.curr] then s
      else s.(page := PageEntry(next), esp0 := KernelStackTop(next), curr := s.pcbs[next].terminal)
  }

  /** The control block that a system call finds by masking its stack pointer. */
  function Caller(s: KState, depth: Depth): int {
    PcbIndex(MaskToPcb(s.esp0 - depth))
  }

  predicate CanExec(s: KState, depth: Depth) {
    Shape(s)
    && var me := Caller(s, depth);
       0 <= me < MAX_OPEN_PROCESSES && 0 <= s.pcbs[me].terminal < NUM_TERMINALS
  }

  function ExecStep(s: KState, depth: Depth, image: Loading): KState
    requires CanExec(s, depth)
  {
    var pid := NextFree(s.live, 0);
    if pid >= MAX_OPEN_PROCESSES || image == NotExecutable then s
    else if image == LoadFails then s.(page := PageEntry(pid))
    else Spawn(s, Caller(s, depth), pid)
  }

  /** execute's bookkeeping for a new process `pid` started by process `me`. */
  function Spawn(s: KState, me: Pid, pid: Pid): KState
    requires Shape(s) && 0 <= s.pcbs[me].terminal < NUM_TERMINALS
  {
    var terminal := s.pcbs[me].terminal;
    var child := Pcb(pid, true, s.pcbs[me].pid, terminal, FreshTable());
    s.(live := s.live[pid := true],
       top := s.top[s.curr := pid][terminal := pid],
       pcbs := s.pcbs[me := s.pcbs[me].(leaf := false)][pid := child],
       page := PageEntry(pid),
       esp0 := KernelStackTop(pid))
  }

  predicate CanHalt(s: KState) {
    Shape(s) && 0 <= s.top[s.curr] < MAX_OPEN_PROCESSES
    && s.pcbs[s.top[s.curr]].parent < MAX_OPEN_PROCESSES
  }

  function HaltStep(s: KState, shellReadable: bool): KState
    requires CanHalt(s)
  {
    var p := s.top[s.curr];
    var parent := s.pcbs[p].parent;
    if parent < 0 then
      if shellReadable then s.(esp0 := KernelStackTop(p)) else s
    else
      var cleaned := s.pcbs[p := s.pcbs[p].(files := CloseFrom(s.pcbs[p].files, 0))];
      s.(live := s.live[p := false],
         top := s.top[s.curr := parent],
         pcbs := cleaned[parent := cleaned[parent].(leaf := true)],
         page := PageEntry(parent),
         esp0 := KernelStackTop(parent))
  }

  predicate CanTouchFiles(s: KState) {
    Shape(s) && 0 <= s.top[s.curr] < MAX_OPEN_PROCESSES
  }

  function FilesStep(s: KState, table: Table): KState
    requires CanTouchFiles(s)
  {
    var p := s.top[s.curr];
    s.(pcbs := s.pcbs[p := s.pcbs[p].(files := table)])
  }

  predicate CanStep(s: KState, e: Event) {
    match e
    case Tick => CanTick(s)
    case Exec(depth, _) => CanExec(s, depth)
    case Halt(_) => CanHalt(s)
    case Files(_) => CanTouchFiles(s)
  }

  function Step(s: KState, e: Event): KState
    requires CanStep(s, e)
  {
    match e
    case Tick => TickStep(s)
    case Exec(depth, image) => ExecStep(s, depth, image)
    case Halt(shellReadable) => HaltStep(s, shellReadable)
    case Files(table) => FilesStep(s, table)
  }

  /** The state execute_shells leaves; `memory` is what the six control blocks held before. */
  function Boot(memory: seq<Pcb>): KState
    requires |memory| == MAX_OPEN_PROCESSES
  {
    KState([true, true, true, false, false, false], [0, 1, 2], 0,
           [BaseShell(0), BaseShell(1), BaseShell(2)] + memory[3..],
           PageEntry(0), KernelStackTop(0))
  }

  function BaseShell(i: int): Pcb {
    Pcb(i, true, -1, i, BaseShellTable(i))
  }

  // ---------- three stacks of pids ----------

  datatype Procs = Procs(stacks: seq<seq<int>>, curr: int)

  function Height(a: Procs, t: int): nat
    requires 0 <= t < |a.stacks|
  {
    |a.stacks[t]|
  }

  function Top(a: Procs, t: int): int
    requires 0 <= t < |a.stacks| && a.stacks[t] != []
  {
    a.stacks[t][|a.stacks[t]| - 1]
  }

  ghost predicate NoDuplicates(q: seq<int>) {
    forall i, j :: 0 <= i < j < |q| ==> q[i] != q[j]
  }

  ghost predicate Disjoint(q: seq<int>, r: seq<int>) {
    forall p :: p in q ==> p !in r
  }

  /** A terminal's stack: pids without repetition, the terminal's base shell at the bottom. */
  ghost predicate IsStack(q: seq<int>, t: int) {
    && q != [] && q[0] == t
    && (forall i :: 0 <= i < |q| ==> 0 <= q[i] < MAX_OPEN_PROCESSES)
    && NoDuplicates(q)
  }

  /** Three disjoint stacks, whose bottoms are 0, 1 and 2. */
  ghost predicate Stacked(a: Procs) {
    && |a.stacks| == NUM_TERMINALS && 0 <= a.curr < NUM_TERMINALS
    && (forall t :: 0 <= t < NUM_TERMINALS ==> IsStack(a.stacks[t], t))
    && (forall t, u :: 0 <= t < NUM_TERMINALS && 0 <= u < NUM_TERMINALS && t != u ==>
        Disjoint(a.stacks[t], a.stacks[u]))
  }

  predicate InUse(a: Procs, p: int)
    requires |a.stacks| == NUM_TERMINALS
  {
    p in a.stacks[0] || p in a.stacks[1] || p in a.stacks[2]
  }

  /** The control block stored for the i-th process of terminal t's stack q. */
  predicate Describes(pcb: Pcb, q: seq<int>, t: int, i: int)
    requires 0 <= i < |q|
  {
    && pcb.pid == q[i] && pcb.terminal == t
    && pcb.parent == (if i == 0 then -1 else q[i - 1])
    && pcb.leaf == (i == |q| - 1)
  }

  ghost predicate Stores(pcbs: seq<Pcb>, q: seq<int>, t: int)
    requires |pcbs| == MAX_OPEN_PROCESSES && IsStack(q, t)
  {
    forall i {:trigger Describes(pcbs[q[i]], q, t, i)} :: 0 <= i < |q| ==> Describes(pcbs[q[i]], q, t, i)
  }

  /** The stored state is the three stacks `a`: the live pids are those on the stacks, parent links
      follow stack order, the leaves are the tops, and esp0 belongs to the running process. */
  ghost predicate Represents(s: KState, a: Procs) {
    && Shape(s) && Stacked(a) && s.curr == a.curr
    && (forall t :: 0 <= t < NUM_TERMINALS ==> s.top[t] == Top(a, t))
    && (forall p :: 0 <= p < MAX_OPEN_PROCESSES ==> s.live[p] == InUse(a, p))
    && (forall t :: 0 <= t < NUM_TERMINALS ==> Stores(s.pcbs, a.stacks[t], t))
    && s.esp0 == KernelStackTop(Top(a, a.curr))
  }

  /** The user page entry names the running process. */
  predicate PageAgrees(s: KState)
    requires Shape(s)
  {
    s.page == PageEntry(s.top[s.curr])
  }

  // ---------- the steps on stacks ----------

  /** The lowest pid on no stack, or 6. */
  function FirstUnused(a: Procs, i: nat): (r: nat)
    requires |a.stacks| == NUM_TERMINALS && i <= MAX_OPEN_PROCESSES
    ensures i <= r <= MAX_OPEN_PROCESSES
    ensures forall j :: i <= j < r ==> InUse(a, j)
    ensures r < MAX_OPEN_PROCESSES ==> !InUse(a, r)
    decreases 2 * |a.stacks| - i
  {
    if i < MAX_OPEN_PROCESSES && InUse(a, i) then FirstUnused(a, i + 1) else i
  }

  function Push(a: Procs, pid: int): Procs
    requires |a.stacks| == NUM_TERMINALS && 0 <= a.curr < NUM_TERMINALS
  {
    a.(stacks := a.stacks[a.curr := a.stacks[a.curr] + [pid]])
  }

  function Pop(a: Procs): Procs
    requires |a.stacks| == NUM_TERMINALS && 0 <= a.curr < NUM_TERMINALS && a.stacks[a.curr] != []
  {
    a.(stacks := a.stacks[a.curr := a.stacks[a.curr][..|a.stacks[a.curr]| - 1]])
  }

  type Terminal = t: int | 0 <= t < NUM_TERMINALS witness 0

  function After(t: Terminal): Terminal {
    if t == NUM_TERMINALS - 1 then 0 else t + 1
  }

  /** The terminal whose top comes first after the running top, around the ring. */
  function NextTerminal(a: Procs): Terminal
    requires Stacked(a)
  {
    var t, u := After(a.curr), After(After(a.curr));
    if Ahead(Top(a, a.curr), Top(a, t)) < Ahead(Top(a, a.curr), Top(a, u)) then t else u
  }

  function AbsStep(a: Procs, e: Event): (r: Procs)
    requires Stacked(a)
    ensures Stacked(r)
  {
    match e
    case Tick => a.(curr := NextTerminal(a))
    case Exec(_, image) =>
      var pid := FirstUnused(a, 0);
      if image == Loads && pid < MAX_OPEN_PROCESSES then PushKeepsStacked(a, pid); Push(a, pid) else a
    case Halt(_) => if Height(a, a.curr) > 1 then PopKeepsStacked(a); Pop(a) else a
    case Files(_) => a
  }

  const BOOT_PROCS: Procs := Procs([[0], [1], [2]], 0)

  // ---------- refinement ----------

  lemma BootIsStacked(memory: seq<Pcb>)
    requires |memory| == MAX_OPEN_PROCESSES
    ensures Represents(Boot(memory), BOOT_PROCS) && PageAgrees(Boot(memory))
  {
    hide BaseShellTable, BaseShell;
    var s, a := Boot(memory), BOOT_PROCS;
    BootTop(memory, 0);
    BootTop(memory, 1);
    BootTop(memory, 2);
  }

  lemma BootTop(memory: seq<Pcb>, t: int)
    requires |memory| == MAX_OPEN_PROCESSES && 0 <= t < NUM_TERMINALS
    ensures var q := BOOT_PROCS.stacks[t]; q == [t] && IsStack(q, t) && Stores(Boot(memory).pcbs, q, t)
    ensures Boot(memory).pcbs[t] == BaseShell(t)
  {
    assert BOOT_PROCS.stacks[t] == [t];
  }

  lemma FreeSlotAgrees(s: KState, a: Procs, i: nat)
    requires Represents(s, a) && i <= MAX_OPEN_PROCESSES
    ensures NextFree(s.live, i) == FirstUnused(a, i)
    decreases MAX_OPEN_PROCESSES - i
  {
  }

  /** The esp mask finds the running process's own control block. */
  lemma CallerIsRunning(s: KState, a: Procs, depth: Depth)
    requires Represents(s, a)
    ensures CanExec(s, depth) && Caller(s, depth) == s.top[s.curr]
  {
    RunningBlock(s, a);
    SystemCallFindsItsPcb(s.top[s.curr], depth);
  }

  /** What the control block of the running process holds. */
  lemma RunningBlock(s: KState, a: Procs)
    requires Represents(s, a)
    ensures 0 <= s.top[s.curr] < MAX_OPEN_PROCESSES && InUse(a, s.top[s.curr])
    ensures Describes(s.pcbs[s.top[s.curr]], a.stacks[a.curr], a.curr, Height(a, a.curr) - 1)
  {
    var q := a.stacks[a.curr];
    assert IsStack(q, a.curr) && Stores(s.pcbs, q, a.curr);
    assert q[|q| - 1] in q;
  }

  lemma ExecRefines(s: KState, a: Procs, depth: Depth, image: Loading)
    requires Represents(s, a)
    ensures CanExec(s, depth)
    ensures Represents(ExecStep(s, depth, image), AbsStep(a, Exec(depth, image)))
    ensures PageAgrees(s) ==>
      (PageAgrees(ExecStep(s, depth, image)) <==>
        image != LoadFails || forall p :: 0 <= p < MAX_OPEN_PROCESSES ==> s.live[p])
  {
    hide NoDuplicates, Disjoint, Stores;
    CallerIsRunning(s, a, depth);
    FreeSlotAgrees(s, a, 0);
    var pid := FirstUnused(a, 0);
    RunningBlock(s, a);
    if pid < MAX_OPEN_PROCESSES && image == Loads {
      PushRefines(s, a, pid);
    }
  }

  lemma PushKeepsStacked(a: Procs, pid: Pid)
    requires Stacked(a) && !InUse(a, pid)
    ensures Stacked(Push(a, pid))
    ensures forall p :: InUse(Push(a, pid), p) <==> InUse(a, p) || p == pid
  {
    var b := Push(a, pid);
    var q := a.stacks[a.curr];
    assert b.stacks == a.stacks[a.curr := q + [pid]];
    assert IsStack(q, a.curr) && pid !in q;
    PushedStack(q, a.curr, pid);
    forall t, u | 0 <= t < NUM_TERMINALS && 0 <= u < NUM_TERMINALS && t != u
      ensures Disjoint(b.stacks[t], b.stacks[u])
    {
      assert Disjoint(a.stacks[t], a.stacks[u]);
      assert pid !in a.stacks[t] && pid !in a.stacks[u];
    }
  }

  lemma PushedStack(q: seq<int>, t: int, pid: Pid)
    requires IsStack(q, t) && pid !in q
    ensures IsStack(q + [pid], t)
  {
  }

  lemma PushRefines(s: KState, a: Procs, pid: Pid)
    requires Represents(s, a) && !InUse(a, pid)
    ensures 0 <= s.top[s.curr] < MAX_OPEN_PROCESSES && 0 <= s.pcbs[s.top[s.curr]].terminal < NUM_TERMINALS
    ensures Represents(Spawn(s, s.top[s.curr], pid), Push(a, pid))
  {
    RunningBlock(s, a);
    PushKeepsStacked(a, pid);
    PushTables(s, a, pid);
    var s' := Spawn(s, s.top[s.curr], pid);
    forall t | 0 <= t < NUM_TERMINALS
      ensures Stores(s'.pcbs, Push(a, pid).stacks[t], t)
    {
      PushStores(s, a, pid, t);
    }
  }

  lemma PushTables(s: KState, a: Procs, pid: Pid)
    requires Represents(s, a) && !InUse(a, pid)
    requires 0 <= s.top[s.curr] < MAX_OPEN_PROCESSES && s.pcbs[s.top[s.curr]].terminal == s.curr
    ensures var s' := Spawn(s, s.top[s.curr], pid);
      (forall t :: 0 <= t < NUM_TERMINALS ==> s'.top[t] == Top(Push(a, pid), t))
      && forall p :: 0 <= p < MAX_OPEN_PROCESSES ==> s'.live[p] == InUse(Push(a, pid), p)
  {
    hide Stores, NoDuplicates, Disjoint;
    PushKeepsStacked(a, pid);
    var s' := Spawn(s, s.top[s.curr], pid);
    assert s'.top == s.top[s.curr := pid] && s'.live == s.live[pid := true];
    assert Push(a, pid).stacks == a.stacks[a.curr := a.stacks[a.curr] + [pid]];
  }

  lemma PushStores(s: KState, a: Procs, pid: Pid, t: int)
    requires Represents(s, a) && !InUse(a, pid) && 0 <= t < NUM_TERMINALS
    requires Stacked(Push(a, pid))
    requires Describes(s.pcbs[Top(a, a.curr)], a.stacks[a.curr], a.curr, Height(a, a.curr) - 1)
    ensures Stores(Spawn(s, Top(a, a.curr), pid).pcbs, Push(a, pid).stacks[t], t)
  {
    var me, q := Top(a, a.curr), a.stacks[t];
    var n := Spawn(s, me, pid).pcbs;
    assert IsStack(q, t) && Stores(s.pcbs, q, t);
    assert pid !in q;
    if t != a.curr {
      assert Disjoint(a.stacks[a.curr], q) && me in a.stacks[a.curr];
      SameBlocks(s.pcbs, n, q, t);
    } else {
      PushedStack(q, t, pid);
      OthersOnStack(q, t, pid);
      PushedBlocks(s.pcbs, n, q, q + [pid], t);
    }
  }

  /** Below the top of a stack lie neither the top nor a pid that is on no stack. */
  lemma OthersOnStack(q: seq<int>, t: int, pid: int)
    requires IsStack(q, t) && pid !in q
    ensures forall i :: 0 <= i < |q| - 1 ==> q[i] != q[|q| - 1] && q[i] != pid
    ensures q[|q| - 1] != pid
  {
    assert forall i :: 0 <= i < |q| ==> q[i] in q;
  }

  lemma SameBlocks(m: seq<Pcb>, n: seq<Pcb>, q: seq<int>, t: int)
    requires |m| == |n| == MAX_OPEN_PROCESSES && IsStack(q, t) && Stores(m, q, t)
    requires forall p :: 0 <= p < MAX_OPEN_PROCESSES && p in q ==> n[p] == m[p]
    ensures Stores(n, q, t)
  {
    forall i | 0 <= i < |q|
      ensures Describes(n[q[i]], q, t, i)
    {
      assert Describes(m[q[i]], q, t, i);
      assert q[i] in q;
    }
  }

  lemma PushedBlocks(m: seq<Pcb>, n: seq<Pcb>, q: seq<int>, r: seq<int>, t: int)
    requires |m| == |n| == MAX_OPEN_PROCESSES && IsStack(q, t) && Stores(m, q, t) && IsStack(r, t)
    requires |r| == |q| + 1 && forall i :: 0 <= i < |q| ==> r[i] == q[i]
    requires forall i :: 0 <= i < |q| - 1 ==> n[q[i]] == m[q[i]]
    requires n[q[|q| - 1]] == m[q[|q| - 1]].(leaf := false)
    requires n[r[|q|]].pid == r[|q|] && n[r[|q|]].leaf && n[r[|q|]].parent == q[|q| - 1] && n[r[|q|]].terminal == t
    ensures Stores(n, r, t)
  {
    forall i | 0 <= i < |r|
      ensures Describes(n[r[i]], r, t, i)
    {
      if i < |q| {
        assert Describes(m[q[i]], q, t, i);
      }
    }
  }

  lemma HaltRefines(s: KState, a: Procs, shellReadable: bool)
    requires Represents(s, a)
    ensures CanHalt(s)
    ensures Represents(HaltStep(s, shellReadable), AbsStep(a, Halt(shellReadable)))
    ensures PageAgrees(s) ==> PageAgrees(HaltStep(s, shellReadable))
  {
    var q := a.stacks[a.curr];
    assert IsStack(q, a.curr) && Stores(s.pcbs, q, a.curr);
    assert Describes(s.pcbs[q[|q| - 1]], q, a.curr, |q| - 1);
    if |q| > 1 {
      PopRefines(s, a, shellReadable);
    }
  }

  /** The whole effect of halt. At the bottom of a stack it changes nothing. Otherwise the process is
      off the tables and its parent runs, a leaf again; of its descriptors, those below the first closed
      one are closed, and every other stays as it is, as do those of every other process. */
  lemma HaltEffect(s: KState, a: Procs, shellReadable: bool)
    requires Represents(s, a)
    ensures CanHalt(s)
    ensures Height(a, a.curr) == 1 ==> HaltStep(s, shellReadable) == s
    ensures Height(a, a.curr) > 1 ==>
      var p, q, t := s.top[s.curr], a.stacks[a.curr], HaltStep(s, shellReadable);
      var parent := q[|q| - 2];
      && 0 <= p < MAX_OPEN_PROCESSES && 0 <= parent < MAX_OPEN_PROCESSES && parent != p
      && t.live == s.live[p := false] && t.top == s.top[s.curr := parent] && t.curr == s.curr
      && t.page == PageEntry(parent) && t.esp0 == KernelStackTop(parent)
      && t.pcbs == s.pcbs[p := s.pcbs[p].(files := t.pcbs[p].files)][parent := s.pcbs[parent].(leaf := true)]
      && (forall k :: 0 <= k < MAX_OPEN_FILES ==> HaltsFile(s.pcbs[p].files, t.pcbs[p].files, k))
  {
    HaltRefines(s, a, shellReadable);
    RunningBlock(s, a);
    var q := a.stacks[a.curr];
    assert IsStack(q, a.curr) && Stores(s.pcbs, q, a.curr);
    if |q| > 1 {
      var f := s.pcbs[s.top[s.curr]].files;
      forall k: nat | k < MAX_OPEN_FILES
        ensures HaltsFile(f, CloseFrom(f, 0), k)
      {
        CloseFromEffect(f, 0, k);
      }
    }
  }

  /** What halt does to descriptor k: it is closed, but keeps its jump table, if it and every one below
      it is open, and else stays. */
  predicate HaltsFile(f: Table, g: Table, k: int)
    requires 0 <= k < MAX_OPEN_FILES
  {
    && (g[k].flags != 0 <==> f[k].flags != 0 && exists j :: 0 <= j < k && f[j].flags == 0)
    && g[k] == if g[k].flags == f[k].flags then f[k] else Fd(f[k].ops, 0, -1, 0, 0)
  }

  /** The whole effect of execute. Without a program or a free slot it changes nothing; a program that
      does not load changes the page entry alone; and one that loads takes the lowest free slot, with a
      fresh file array, as a leaf above the process that called. */
  lemma ExecEffect(s: KState, a: Procs, depth: Depth, image: Loading, pid: Pid)
    requires Represents(s, a)
    requires !s.live[pid] && forall p :: 0 <= p < pid ==> s.live[p]
    ensures CanExec(s, depth) && 0 <= s.top[s.curr] < MAX_OPEN_PROCESSES && s.top[s.curr] != pid
    ensures var me, t := s.top[s.curr], ExecStep(s, depth, image);
      t == match image
        case NotExecutable => s
        case LoadFails => s.(page := PageEntry(pid))
        case Loads => KState(
          s.live[pid := true], s.top[s.curr := pid], s.curr,
          s.pcbs[me := s.pcbs[me].(leaf := false)][pid := Pcb(pid, true, me, s.curr, FreshTable())],
          PageEntry(pid), KernelStackTop(pid))
  {
    CallerIsRunning(s, a, depth);
    RunningBlock(s, a);
    assert NextFree(s.live, 0) == pid;
  }

  lemma FullExecEffect(s: KState, a: Procs, depth: Depth, image: Loading)
    requires Represents(s, a) && forall p :: 0 <= p < MAX_OPEN_PROCESSES ==> s.live[p]
    ensures CanExec(s, depth) && ExecStep(s, depth, image) == s
  {
    CallerIsRunning(s, a, depth);
  }

  /** What each event does to the three stacks. */
  lemma StacksMove(a: Procs, e: Event)
    requires Stacked(a)
    ensures var b := AbsStep(a, e); var q := a.stacks[a.curr];
      match e
      case Tick => b.stacks == a.stacks && b.curr != a.curr && forall t: Terminal :: NotCloser(a, t, b.curr)
      case Files(_) => b == a
      case Halt(_) => b == if |q| == 1 then a else a.(stacks := a.stacks[a.curr := q[..|q| - 1]])
      case Exec(_, image) =>
        if image != Loads || (forall p :: 0 <= p < MAX_OPEN_PROCESSES ==> InUse(a, p)) then b == a
        else (exists pid :: LowestUnused(a, pid) && b == a.(stacks := a.stacks[a.curr := q + [pid]]))
  {
    match e
    case Tick => NearestTerminal(a);
    case Files(_) =>
    case Halt(_) =>
    case Exec(_, image) =>
      var pid := FirstUnused(a, 0);
      if image == Loads && pid < MAX_OPEN_PROCESSES {
        assert LowestUnused(a, pid);
      }
  }

  ghost predicate LowestUnused(a: Procs, pid: int)
    requires Stacked(a)
  {
    0 <= pid < MAX_OPEN_PROCESSES && !InUse(a, pid) && forall p :: 0 <= p < pid ==> InUse(a, p)
  }

  /** No other terminal's top lies fewer steps ahead of the running top than that of u. */
  ghost predicate NotCloser(a: Procs, t: Terminal, u: Terminal)
    requires Stacked(a)
  {
    assert IsStack(a.stacks[t], t) && IsStack(a.stacks[u], u) && IsStack(a.stacks[a.curr], a.curr);
    t != a.curr ==> Ahead(Top(a, a.curr), Top(a, u)) <= Ahead(Top(a, a.curr), Top(a, t))
  }

  lemma NearestTerminal(a: Procs)
    requires Stacked(a)
    ensures NextTerminal(a) != a.curr && forall t: Terminal :: NotCloser(a, t, NextTerminal(a))
  {
    forall t: Terminal
      ensures NotCloser(a, t, NextTerminal(a))
    {
      assert t == a.curr || t == After(a.curr) || t == After(After(a.curr));
    }
  }

  /** Ahead is the remainder of the difference, and a step around the ring that of a sum. */
  lemma AheadIsRemainder(p: Pid, q: Pid, d: int)
    requires 1 <= d <= MAX_OPEN_PROCESSES
    ensures p != q ==> Ahead(p, q) == (q + 6 - p) % 6
    ensures Ring(p, d) == (p + d) % 6
  {
  }

  lemma PopKeepsStacked(a: Procs)
    requires Stacked(a) && Height(a, a.curr) > 1
    ensures Stacked(Pop(a))
    ensures forall p :: InUse(Pop(a), p) <==> InUse(a, p) && p != Top(a, a.curr)
  {
    var b := Pop(a);
    var q := a.stacks[a.curr];
    assert q == q[..|q| - 1] + [q[|q| - 1]];
    forall t | 0 <= t < NUM_TERMINALS
      ensures IsStack(b.stacks[t], t)
    {
      assert IsStack(a.stacks[t], t);
    }
    assert IsStack(q, a.curr);
    assert Top(a, a.curr) !in q[..|q| - 1];
    forall t, u | 0 <= t < NUM_TERMINALS && 0 <= u < NUM_TERMINALS && t != u
      ensures Disjoint(b.stacks[t], b.stacks[u])
    {
      assert Disjoint(a.stacks[t], a.stacks[u]);
    }
  }

  lemma PopRefines(s: KState, a: Procs, shellReadable: bool)
    requires Represents(s, a) && CanHalt(s) && Height(a, a.curr) > 1
    ensures Represents(HaltStep(s, shellReadable), Pop(a))
  {
    RunningBlock(s, a);
    PopKeepsStacked(a);
    PopTables(s, a, shellReadable);
    var s', a' := HaltStep(s, shellReadable), Pop(a);
    forall t | 0 <= t < NUM_TERMINALS
      ensures Stores(s'.pcbs, a'.stacks[t], t)
    {
      PopStores(s, a, shellReadable, t);
    }
  }

  lemma PopTables(s: KState, a: Procs, shellReadable: bool)
    requires Represents(s, a) && CanHalt(s) && Height(a, a.curr) > 1
    requires Describes(s.pcbs[s.top[s.curr]], a.stacks[a.curr], a.curr, Height(a, a.curr) - 1)
    ensures var s' := HaltStep(s, shellReadable);
      (forall t :: 0 <= t < NUM_TERMINALS ==> s'.top[t] == Top(Pop(a), t))
      && (forall p :: 0 <= p < MAX_OPEN_PROCESSES ==> s'.live[p] == InUse(Pop(a), p))
      && s'.esp0 == KernelStackTop(Top(Pop(a), a.curr))
  {
    PopKeepsStacked(a);
    assert HaltStep(s, shellReadable).live == s.live[Top(a, a.curr) := false];
  }

  lemma PopStores(s: KState, a: Procs, shellReadable: bool, t: int)
    requires Represents(s, a) && CanHalt(s) && Height(a, a.curr) > 1 && 0 <= t < NUM_TERMINALS
    requires Stacked(Pop(a))
    requires Describes(s.pcbs[Top(a, a.curr)], a.stacks[a.curr], a.curr, Height(a, a.curr) - 1)
    ensures Stores(HaltStep(s, shellReadable).pcbs, Pop(a).stacks[t], t)
  {
    var me, q := Top(a, a.curr), a.stacks[t];
    var c := a.stacks[a.curr];
    var parent := c[|c| - 2];
    assert s.pcbs[me].parent == parent;
    assert IsStack(c, a.curr) && Stores(s.pcbs, c, a.curr) && IsStack(q, t) && Stores(s.pcbs, q, t);
    var n := HaltStep(s, shellReadable).pcbs;
    assert forall p :: 0 <= p < MAX_OPEN_PROCESSES && p != me && p != parent ==> n[p] == s.pcbs[p];
    if t != a.curr {
      assert Disjoint(c, q) && me in c && parent in c;
      SameBlocks(s.pcbs, n, q, t);
    } else {
      PoppedBlocks(s.pcbs, n, q, q[..|q| - 1], t);
    }
  }

  lemma PoppedBlocks(m: seq<Pcb>, n: seq<Pcb>, q: seq<int>, r: seq<int>, t: int)
    requires |m| == |n| == MAX_OPEN_PROCESSES && IsStack(q, t) && Stores(m, q, t) && IsStack(r, t)
    requires |q| == |r| + 1 && forall i :: 0 <= i < |r| ==> r[i] == q[i]
    requires forall i :: 0 <= i < |r| - 1 ==> n[q[i]] == m[q[i]]
    requires n[q[|r| - 1]] == m[q[|r| - 1]].(leaf := true)
    ensures Stores(n, r, t)
  {
    forall i | 0 <= i < |r|
      ensures Describes(n[r[i]], r, t, i)
    {
      assert Describes(m[q[i]], q, t, i);
    }
  }

  /** A pid is a live leaf exactly when it is the top of a terminal's stack. */
  lemma RunnableIffTop(s: KState, a: Procs, p: Pid, t: Terminal, u: Terminal, v: Terminal)
    requires Represents(s, a) && t != u && u != v && t != v
    ensures Runnable(s, p) <==> p == Top(a, t) || p == Top(a, u) || p == Top(a, v)
  {
    LeafOnStack(s, a, p, t);
    LeafOnStack(s, a, p, u);
    LeafOnStack(s, a, p, v);
  }

  lemma LeafOnStack(s: KState, a: Procs, p: Pid, t: Terminal)
    requires Represents(s, a)
    ensures p in a.stacks[t] ==> (s.pcbs[p].leaf <==> p == Top(a, t))
    ensures Top(a, t) in a.stacks[t]
  {
    var q := a.stacks[t];
    assert IsStack(q, t) && Stores(s.pcbs, q, t);
    if p in q {
      var i :| 0 <= i < |q| && q[i] == p;
      assert Describes(s.pcbs[q[i]], q, t, i);
      assert NoDuplicates(q);
    }
  }

  /** The three tops are different pids, and each top's block names its terminal. */
  lemma TopsDiffer(s: KState, a: Procs, t: int, u: int)
    requires Represents(s, a) && 0 <= t < NUM_TERMINALS && 0 <= u < NUM_TERMINALS && t != u
    ensures 0 <= Top(a, t) < MAX_OPEN_PROCESSES && s.pcbs[Top(a, t)].terminal == t
    ensures Top(a, t) != Top(a, u)
  {
    var q := a.stacks[t];
    assert IsStack(q, t) && Stores(s.pcbs, q, t) && IsStack(a.stacks[u], u);
    assert Describes(s.pcbs[q[|q| - 1]], q, t, |q| - 1);
    assert Disjoint(q, a.stacks[u]) && Top(a, t) in q && Top(a, u) in a.stacks[u];
  }

  /** The scan among three runnable pids. */
  lemma ScanAmongThree(s: KState, cur: Pid, x: Pid, y: Pid)
    requires Shape(s) && x != cur && y != cur && x != y
    requires forall p: Pid :: Runnable(s, p) <==> p == cur || p == x || p == y
    ensures Scan(s, cur, 1) == if Ahead(cur, x) < Ahead(cur, y) then x else y
  {
    var r := Scan(s, cur, 1);
    assert Runnable(s, x) && Runnable(s, y);
    assert Ahead(cur, x) < 6 && Ahead(cur, y) < 6 && Ahead(cur, cur) == 6;
  }

  /** A tick always changes terminal: to the one whose top comes first around the ring. */
  lemma TickRefines(s: KState, a: Procs)
    requires Represents(s, a)
    ensures CanTick(s) && Represents(TickStep(s), AbsStep(a, Tick)) && PageAgrees(TickStep(s))
    ensures TickStep(s).curr != s.curr
  {
    var t, u := After(a.curr), After(After(a.curr));
    TopsDiffer(s, a, t, u);
    TopsDiffer(s, a, u, a.curr);
    TopsDiffer(s, a, a.curr, t);
    forall p: Pid
      ensures Runnable(s, p) <==> p == Top(a, a.curr) || p == Top(a, t) || p == Top(a, u)
    {
      RunnableIffTop(s, a, p, a.curr, t, u);
    }
    ScanAmongThree(s, Top(a, a.curr), Top(a, t), Top(a, u));
    SwitchRefines(s, a, NextTerminal(a));
  }

  lemma SwitchRefines(s: KState, a: Procs, t: int)
    requires Represents(s, a) && 0 <= t < NUM_TERMINALS && t != a.curr
    requires CanTick(s) && Scan(s, s.top[s.curr], 1) == Top(a, t)
    ensures Represents(TickStep(s), a.(curr := t)) && PageAgrees(TickStep(s))
  {
    hide NoDuplicates, Scan;
    TopsDiffer(s, a, t, a.curr);
    assert Stacked(a.(curr := t));
  }

  lemma FilesRefines(s: KState, a: Procs, table: Table)
    requires Represents(s, a)
    ensures CanTouchFiles(s) && Represents(FilesStep(s, table), a)
    ensures var p, t := s.top[s.curr], FilesStep(s, table);
      t == s.(pcbs := t.pcbs) && |t.pcbs| == MAX_OPEN_PROCESSES && 0 <= p < MAX_OPEN_PROCESSES
      && t.pcbs[p] == s.pcbs[p].(files := table)
      && forall q :: 0 <= q < MAX_OPEN_PROCESSES && q != p ==> t.pcbs[q] == s.pcbs[q]
    ensures PageAgrees(s) ==> PageAgrees(FilesStep(s, table))
  {
    RunningBlock(s, a);
    var n := FilesStep(s, table).pcbs;
    forall t | 0 <= t < NUM_TERMINALS
      ensures Stores(n, a.stacks[t], t)
    {
      var q := a.stacks[t];
      assert IsStack(q, t) && Stores(s.pcbs, q, t);
      forall i | 0 <= i < |q|
        ensures Describes(n[q[i]], q, t, i)
      {
        assert Describes(s.pcbs[q[i]], q, t, i);
      }
    }
  }

  /** Every step of the stored state is the same step of the three stacks. */
  lemma StepRefines(s: KState, a: Procs, e: Event)
    requires Represents(s, a)
    ensures CanStep(s, e) && Represents(Step(s, e), AbsStep(a, e))
    ensures PageAgrees(s) && !(e.Exec? && e.image == LoadFails) ==> PageAgrees(Step(s, e))
  {
    match e
    case Tick => TickRefines(s, a);
    case Exec(depth, image) => ExecRefines(s, a, depth, image);
    case Halt(shellReadable) => HaltRefines(s, a, shellReadable);
    case Files(table) => FilesRefines(s, a, table);
  }

  /** A stored state is at most one triple of stacks. */
  lemma StacksAreDetermined(s: KState, a: Procs, b: Procs)
    requires Represents(s, a) && Represents(s, b)
    ensures a == b
  {
    forall t | 0 <= t < NUM_TERMINALS
      ensures a.stacks[t] == b.stacks[t]
    {
      assert IsStack(a.stacks[t], t) && IsStack(b.stacks[t], t);
      assert Stores(s.pcbs, a.stacks[t], t) && Stores(s.pcbs, b.stacks[t], t);
      assert Top(a, t) == s.top[t] == Top(b, t);
      SameChain(s.pcbs, a.stacks[t], b.stacks[t], t, 0);
    }
  }

  /** Two stacks with one top, read from the top down, never part. */
  lemma {:induction false} SameChain(m: seq<Pcb>, q: seq<int>, r: seq<int>, t: int, k: nat)
    requires |m| == MAX_OPEN_PROCESSES && IsStack(q, t) && IsStack(r, t) && Stores(m, q, t) && Stores(m, r, t)
    requires k < |q| && k < |r| && q[|q| - 1 - k] == r[|r| - 1 - k]
    ensures |q| == |r| && forall i :: 0 <= i < |q| - k ==> q[i] == r[i]
    decreases |q| - k
  {
    assert Describes(m[q[|q| - 1 - k]], q, t, |q| - 1 - k);
    assert Describes(m[r[|r| - 1 - k]], r, t, |r| - 1 - k);
    if k + 1 < |q| {
      SameChain(m, q, r, t, k + 1);
    }
  }
}
