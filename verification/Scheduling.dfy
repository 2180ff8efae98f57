/** Properties of whole runs of the kernel after boot: any sequence of ticks, execute and halt
    calls (successful or not) and descriptor calls. */
module Scheduling {
  import opened Layout
  import opened Processes

  /** The three stacks after boot and the events es. */
  function AbsRun(es: seq<Event>): (a: Procs)
    ensures Stacked(a)
  {
    if es == [] then BootIsStacked(seq(MAX_OPEN_PROCESSES, i => BaseShell(i))); BOOT_PROCS
    else AbsStep(AbsRun(es[..|es| - 1]), es[|es| - 1])
  }

  /** The stored state after boot and the events es: every event can always happen. */
  function Run(memory: seq<Pcb>, es: seq<Event>): (s: KState)
    requires |memory| == MAX_OPEN_PROCESSES
    ensures Represents(s, AbsRun(es))
  {
    if es == [] then BootIsStacked(memory); Boot(memory)
    else
      var before := Run(memory, es[..|es| - 1]);
      StepRefines(before, AbsRun(es[..|es| - 1]), es[|es| - 1]);
      Step(before, es[|es| - 1])
  }

  lemma LastOne(es: seq<Event>, more: seq<Event>)
    requires more != []
    ensures es + more == es + more[..|more| - 1] + [more[|more| - 1]]
  {
  }

  lemma AbsRunStep(es: seq<Event>, e: Event)
    ensures AbsRun(es + [e]) == AbsStep(AbsRun(es), e)
  {
    assert (es + [e])[..|es|] == es;
  }

  lemma RunStep(memory: seq<Pcb>, es: seq<Event>, e: Event)
    requires |memory| == MAX_OPEN_PROCESSES
    ensures CanStep(Run(memory, es), e)
    ensures Run(memory, es + [e]) == Step(Run(memory, es), e)
  {
    assert (es + [e])[..|es|] == es;
    StepRefines(Run(memory, es), AbsRun(es), e);
  }

  predicate NoFailedLoad(es: seq<Event>) {
    forall i :: 0 <= i < |es| && es[i].Exec? ==> es[i].image != LoadFails
  }

  /** In every run on an image whose programs load, the user page entry, esp0 and the active
      process of the running terminal name one pid. */
  lemma {:induction false} MachineAgrees(memory: seq<Pcb>, es: seq<Event>)
    requires |memory| == MAX_OPEN_PROCESSES && NoFailedLoad(es)
    ensures var s := Run(memory, es); s.page == PageEntry(s.top[s.curr]) && s.esp0 == KernelStackTop(s.top[s.curr])
  {
    if es == [] {
      BootIsStacked(memory);
    } else {
      var n := |es| - 1;
      MachineAgrees(memory, es[..n]);
      StepRefines(Run(memory, es[..n]), AbsRun(es[..n]), es[n]);
    }
  }

  // ---------- bounded waiting ----------

  function Ticks(es: seq<Event>): nat {
    if es == [] then 0 else Ticks(es[..|es| - 1]) + if es[|es| - 1].Tick? then 1 else 0
  }

  /** The terminal that is neither t nor u. */
  function Third(t: Terminal, u: Terminal): Terminal
    requires t != u
  {
    3 - t - u
  }

  /** While b waits: how far ahead of b's top, around the ring, the top of the other waiting
      terminal is. */
  function Rank(a: Procs, b: Terminal): int
    requires Stacked(a) && a.curr != b
  {
    assert IsStack(a.stacks[b], b) && IsStack(a.stacks[Third(a.curr, b)], Third(a.curr, b));
    Ahead(Top(a, b), Top(a, Third(a.curr, b)))
  }

  /** The tops of any two terminals are different pids. */
  lemma TopsAreDistinctPids(a: Procs, t: Terminal, u: Terminal)
    requires Stacked(a) && t != u
    ensures 0 <= Top(a, t) < MAX_OPEN_PROCESSES && 0 <= Top(a, u) < MAX_OPEN_PROCESSES && Top(a, t) != Top(a, u)
  {
    assert IsStack(a.stacks[t], t) && IsStack(a.stacks[u], u) && Disjoint(a.stacks[t], a.stacks[u]);
    assert Top(a, t) in a.stacks[t] && Top(a, u) in a.stacks[u];
  }

  lemma RankRange(a: Procs, b: Terminal)
    requires Stacked(a) && a.curr != b
    ensures 1 <= Rank(a, b) <= 5
  {
    TopsAreDistinctPids(a, b, Third(a.curr, b));
  }

  lemma CallKeepsOthers(a: Procs, e: Event, t: Terminal)
    requires Stacked(a) && a.curr != t && !e.Tick?
    ensures AbsStep(a, e).curr == a.curr && AbsStep(a, e).stacks[t] == a.stacks[t]
  {
  }

  /** A call by the running process moves neither waiting terminal's top. */
  lemma CallKeepsRank(a: Procs, e: Event, b: Terminal)
    requires Stacked(a) && a.curr != b && !e.Tick?
    ensures AbsStep(a, e).curr == a.curr && Rank(AbsStep(a, e), b) == Rank(a, b)
  {
    CallKeepsOthers(a, e, b);
    CallKeepsOthers(a, e, Third(a.curr, b));
  }

  /** Going round the ring from r, x comes before b: so going round from b, r comes before x. */
  lemma PassedOver(b: Pid, r: Pid, x: Pid)
    requires b != r && r != x && b != x && Ahead(r, x) < Ahead(r, b)
    ensures Ahead(b, r) < Ahead(b, x)
  {
  }

  lemma ChoiceIsNearest(a: Procs, b: Terminal)
    requires Stacked(a) && a.curr != b && NextTerminal(a) != b
    ensures NextTerminal(a) == Third(a.curr, b)
    ensures var x := Third(a.curr, b);
      0 <= Top(a, b) < MAX_OPEN_PROCESSES && 0 <= Top(a, x) < MAX_OPEN_PROCESSES
          && 0 <= Top(a, a.curr) < MAX_OPEN_PROCESSES
      && Ahead(Top(a, a.curr), Top(a, x)) <= Ahead(Top(a, a.curr), Top(a, b))
  {
    var x := Third(a.curr, b);
    TopsAreDistinctPids(a, b, x);
    TopsAreDistinctPids(a, b, a.curr);
  }

  /** A tick that passes b over has come to a top that lay before b's. */
  lemma TickLowersRank(a: Procs, b: Terminal)
    requires Stacked(a) && a.curr != b && NextTerminal(a) != b
    ensures NextTerminal(a) == Third(a.curr, b)
    ensures Rank(AbsStep(a, Tick), b) < Rank(a, b)
  {
    hide NoDuplicates, Disjoint;
    var x, r := Third(a.curr, b), a.curr;
    ChoiceIsNearest(a, b);
    TopsAreDistinctPids(a, b, x);
    TopsAreDistinctPids(a, b, r);
    TopsAreDistinctPids(a, r, x);
    PassedOver(Top(a, b), Top(a, r), Top(a, x));
  }

  /** b is not running after any beginning of `more`. */
  ghost predicate Waits(es: seq<Event>, more: seq<Event>, b: Terminal) {
    forall k :: 0 <= k <= |more| ==> AbsRun(es + more[..k]).curr != b
  }

  lemma WaitsBefore(es: seq<Event>, more: seq<Event>, b: Terminal, n: nat)
    requires Waits(es, more, b) && n <= |more|
    ensures Waits(es, more[..n], b) && AbsRun(es).curr != b && AbsRun(es + more[..n]).curr != b
  {
    assert es + more[..0] == es;
    forall k | 0 <= k <= n
      ensures AbsRun(es + more[..n][..k]).curr != b
    {
      assert more[..n][..k] == more[..k];
    }
  }

  /** As long as b is not selected, its rank pays for every tick. */
  lemma {:induction false} RankPaysForTicks(es: seq<Event>, more: seq<Event>, b: Terminal)
    requires Waits(es, more, b)
    ensures AbsRun(es).curr != b && AbsRun(es + more).curr != b
    ensures Ticks(more) + Rank(AbsRun(es + more), b) <= Rank(AbsRun(es), b)
  {
    WaitsBefore(es, more, b, |more|);
    assert more[..|more|] == more;
    if more == [] {
      assert es + more == es;
    } else {
      var n := |more| - 1;
      var e := more[n];
      WaitsBefore(es, more, b, n);
      RankPaysForTicks(es, more[..n], b);
      var a := AbsRun(es + more[..n]);
      LastOne(es, more);
      AbsRunStep(es + more[..n], e);
      if e.Tick? {
        TickLowersRank(a, b);
      } else {
        CallKeepsRank(a, e, b);
      }
    }
  }

  lemma WaitsAtMostFourTicks(es: seq<Event>, more: seq<Event>, b: Terminal)
    requires Waits(es, more, b)
    ensures Ticks(more) <= 4
  {
    RankPaysForTicks(es, more, b);
    RankRange(AbsRun(es), b);
    RankRange(AbsRun(es + more), b);
  }

  /** No terminal starves: whatever execute, halt and descriptor calls happen between ticks, a
      terminal that is not running is selected by the fifth tick. */
  lemma BoundedWaiting(memory: seq<Pcb>, es: seq<Event>, more: seq<Event>, b: Terminal)
    requires |memory| == MAX_OPEN_PROCESSES && Ticks(more) >= 5
    ensures exists k :: 0 <= k <= |more| && Run(memory, es + more[..k]).curr == b && Ticks(more[..k]) <= 5
  {
    assert !Waits(es, more, b) by {
      if Waits(es, more, b) {
        WaitsAtMostFourTicks(es, more, b);
      }
    }
    var k := FirstSelection(es, more, b);
    assert Run(memory, es + more[..k]).curr == b;
    if k > 0 {
      WaitsAtMostFourTicks(es, more[..k - 1], b);
      assert more[..k][..k - 1] == more[..k - 1];
    }
  }

  lemma FirstSelection(es: seq<Event>, more: seq<Event>, b: Terminal) returns (k: nat)
    requires !Waits(es, more, b)
    ensures k <= |more| && AbsRun(es + more[..k]).curr == b
    ensures k > 0 ==> Waits(es, more[..k - 1], b)
  {
    var n := |more| - 1;
    if more == [] {
      k := 0;
    } else if Waits(es, more[..n], b) {
      k := n + 1;
      WaitsOneMore(es, more, b);
    } else {
      k := FirstSelection(es, more[..n], b);
      PrefixOfPrefix(more, n, k);
    }
  }

  lemma PrefixOfPrefix(more: seq<Event>, n: nat, k: nat)
    requires k <= n <= |more|
    ensures more[..n][..k] == more[..k]
    ensures k > 0 ==> more[..n][..k - 1] == more[..k - 1]
  {
  }

  lemma WaitsOneMore(es: seq<Event>, more: seq<Event>, b: Terminal)
    requires more != [] && Waits(es, more[..|more| - 1], b) && !Waits(es, more, b)
    ensures AbsRun(es + more[..|more|]).curr == b
  {
    forall i | 0 <= i < |more|
      ensures AbsRun(es + more[..i]).curr != b
    {
      assert more[..|more| - 1][..i] == more[..i];
    }
  }

  // ---------- five ticks can be needed ----------

  const CALL: Event := Exec(0, Loads)
  const EXIT: Event := Halt(true)

  function Crowd(q: seq<int>, r: seq<int>, curr: int): Procs {
    Procs([[0], q, r], curr)
  }

  /** From the top of terminal c, the top of terminal d comes before that of the third. */
  predicate Nearest(q: seq<int>, r: seq<int>, c: Terminal, d: Terminal)
    requires q != [] && r != [] && c != d
  {
    var x, y := q[|q| - 1], r[|r| - 1];
    0 < x < MAX_OPEN_PROCESSES && 0 < y < MAX_OPEN_PROCESSES
    && var tops: seq<Pid> := [0, x, y]; Ahead(tops[c], tops[d]) < Ahead(tops[c], tops[Third(c, d)])
  }

  lemma TickTo(es: seq<Event>, q: seq<int>, r: seq<int>, c: Terminal, d: Terminal)
    requires AbsRun(es) == Crowd(q, r, c) && q != [] && r != [] && c != d && Nearest(q, r, c, d)
    ensures AbsRun(es + [Tick]) == Crowd(q, r, d)
  {
    AbsRunStep(es, Tick);
    CrowdTops(q, r, c, d);
  }

  lemma CrowdTops(q: seq<int>, r: seq<int>, c: Terminal, d: Terminal)
    requires q != [] && r != [] && c != d && Nearest(q, r, c, d) && Stacked(Crowd(q, r, c))
    ensures NextTerminal(Crowd(q, r, c)) == d
  {
    var a := Crowd(q, r, c);
    assert Top(a, 0) == 0 && Top(a, 1) == q[|q| - 1] && Top(a, 2) == r[|r| - 1];
  }

  lemma CallIn(es: seq<Event>, q: seq<int>, r: seq<int>, c: int, pid: Pid)
    requires AbsRun(es) == Crowd(q, r, c) && 1 <= c <= 2 && FirstUnused(Crowd(q, r, c), 0) == pid
    ensures AbsRun(es + [CALL]) == Crowd(if c == 1 then q + [pid] else q, if c == 2 then r + [pid] else r, c)
  {
    AbsRunStep(es, CALL);
  }

  lemma LowestUnused(q: seq<int>, r: seq<int>, c: int, pid: Pid)
    requires pid >= 3 && pid !in q && pid !in r && 1 in q && 2 in r
    requires (pid > 3 ==> 3 in q) && (pid > 4 ==> 4 in r)
    ensures FirstUnused(Crowd(q, r, c), 0) == pid
  {
    var a := Crowd(q, r, c);
    assert InUse(a, 0) && InUse(a, 1) && InUse(a, 2);
    assert pid > 3 ==> InUse(a, 3);
    assert pid > 4 ==> InUse(a, 4);
    assert !InUse(a, pid);
  }

  lemma ExitIn(es: seq<Event>, q: seq<int>, r: seq<int>, c: int)
    requires AbsRun(es) == Crowd(q, r, c)
    requires 1 <= c <= 2 && if c == 1 then |q| > 1 else |r| > 1
    ensures AbsRun(es + [EXIT]) == Crowd(if c == 1 then q[..|q| - 1] else q, if c == 2 then r[..|r| - 1] else r, c)
  {
    hide AbsRun, NoDuplicates, Disjoint;
    AbsRunStep(es, EXIT);
  }

  lemma StillWaits(es: seq<Event>, more: seq<Event>, e: Event)
    requires Waits(es, more, 0) && AbsRun(es + more + [e]).curr != 0
    ensures Waits(es, more + [e], 0) && AbsRun(es + (more + [e])) == AbsRun(es + more + [e])
    ensures Ticks(more + [e]) == Ticks(more) + if e.Tick? then 1 else 0
  {
    assert es + (more + [e]) == es + more + [e];
    forall k | 0 <= k <= |more| + 1
      ensures AbsRun(es + (more + [e])[..k]).curr != 0
    {
      assert (more + [e])[..k] == if k <= |more| then more[..k] else more + [e];
    }
    assert (more + [e])[..|more|] == more;
  }

  /** A tick that gives terminal c its turn, and a program that starts there. */
  lemma TickAndCall(es: seq<Event>, q: seq<int>, r: seq<int>, b: Terminal, c: Terminal, pid: Pid)
      returns (more: seq<Event>)
    requires AbsRun(es) == Crowd(q, r, b) && q != [] && r != [] && b != c && Nearest(q, r, b, c)
    requires 1 <= c <= 2 && FirstUnused(Crowd(q, r, c), 0) == pid
    ensures AbsRun(more) == Crowd(if c == 1 then q + [pid] else q, if c == 2 then r + [pid] else r, c)
  {
    TickTo(es, q, r, b, c);
    CallIn(es + [Tick], q, r, c, pid);
    more := es + [Tick] + [CALL];
  }

  lemma TickOnce(es: seq<Event>, q: seq<int>, r: seq<int>, b: Terminal, c: Terminal) returns (more: seq<Event>)
    requires AbsRun(es) == Crowd(q, r, b) && q != [] && r != [] && b != c && Nearest(q, r, b, c)
    ensures AbsRun(more) == Crowd(q, r, c)
  {
    TickTo(es, q, r, b, c);
    more := es + [Tick];
  }

  lemma FreePids()
    ensures FirstUnused(Crowd([1], [2], 1), 0) == 3
    ensures FirstUnused(Crowd([1, 3], [2], 2), 0) == 4
    ensures FirstUnused(Crowd([1, 3], [2, 4], 1), 0) == 5
  {
    LowestUnused([1], [2], 1, 3);
    LowestUnused([1, 3], [2], 2, 4);
    LowestUnused([1, 3], [2, 4], 1, 5);
  }

  /** Terminal 1 starts a program and terminal 2 one too, and both are left running. */
  lemma TwoPrograms() returns (es: seq<Event>)
    ensures AbsRun(es) == Crowd([1, 3], [2, 4], 2)
  {
    hide InUse;
    FreePids();
    es := TickAndCall([], [1], [2], 0, 1, 3);
    assert [1] + [3] == [1, 3];
    es := TickOnce(es, [1, 3], [2], 1, 0);
    es := TickAndCall(es, [1, 3], [2], 0, 2, 4);
    assert [2] + [4] == [2, 4];
  }

  /** Terminal 1's program starts another. */
  lemma ThreePrograms(es0: seq<Event>) returns (es: seq<Event>)
    requires AbsRun(es0) == Crowd([1, 3], [2, 4], 2)
    ensures AbsRun(es) == Crowd([1, 3, 5], [2, 4], 1)
  {
    hide AbsRun, InUse;
    FreePids();
    es := TickOnce(es0, [1, 3], [2, 4], 2, 0);
    es := TickAndCall(es, [1, 3], [2, 4], 0, 1, 5);
    assert [1, 3] + [5] == [1, 3, 5];
  }

  lemma ThirdProgramWaits(es0: seq<Event>) returns (es: seq<Event>)
    requires AbsRun(es0) == Crowd([1, 3, 5], [2, 4], 1)
    ensures AbsRun(es) == Crowd([1, 3, 5], [2, 4], 2)
  {
    es := TickOnce(es0, [1, 3, 5], [2, 4], 1, 0);
    es := TickOnce(es, [1, 3, 5], [2, 4], 0, 2);
  }

  /** A tick that passes terminal 0 over, and then the exit of the program that got its turn, which
      moves that program's terminal back around the ring. */
  lemma TickAndExit(es: seq<Event>, more0: seq<Event>, q: seq<int>, r: seq<int>, c: Terminal, d: Terminal)
      returns (more: seq<Event>)
    requires AbsRun(es + more0) == Crowd(q, r, c) && Waits(es, more0, 0)
    requires q != [] && r != [] && c != d && d != 0 && Nearest(q, r, c, d) && (if d == 1 then |q| > 1 else |r| > 1)
    ensures AbsRun(es + more) == Crowd(if d == 1 then q[..|q| - 1] else q, if d == 2 then r[..|r| - 1] else r, d)
    ensures Waits(es, more, 0) && Ticks(more) == Ticks(more0) + 1
  {
    TickTo(es + more0, q, r, c, d);
    StillWaits(es, more0, Tick);
    ExitIn(es + (more0 + [Tick]), q, r, d);
    StillWaits(es, more0 + [Tick], EXIT);
    more := more0 + [Tick] + [EXIT];
  }

  /** The bound is tight: four ticks can pass over a waiting terminal. */
  lemma FourTicksDoNotSuffice()
    ensures exists es, more, b :: Ticks(more) == 4 && Waits(es, more, b)
  {
    var es := TwoPrograms();
    es := ThreePrograms(es);
    es := ThirdProgramWaits(es);
    var more := Retreat(es);
  }

  /** After `more`, terminal 0 still waits, n ticks have passed, and terminals 1 and 2 run q and r. */
  ghost predicate StillPassed(es: seq<Event>, more: seq<Event>, q: seq<int>, r: seq<int>, c: Terminal, n: int) {
    AbsRun(es + more) == Crowd(q, r, c) && Waits(es, more, 0) && Ticks(more) == n
  }

  lemma FirstExit(es: seq<Event>) returns (more: seq<Event>)
    requires AbsRun(es) == Crowd([1, 3, 5], [2, 4], 2)
    ensures StillPassed(es, more, [1, 3], [2, 4], 1, 1)
  {
    hide AbsRun, Waits, InUse;
    assert es + [] == es;
    more := TickAndExit(es, [], [1, 3, 5], [2, 4], 2, 1);
    assert [1, 3, 5][..2] == [1, 3];
  }

  lemma SecondExit(es: seq<Event>, more0: seq<Event>) returns (more: seq<Event>)
    requires StillPassed(es, more0, [1, 3], [2, 4], 1, 1)
    ensures StillPassed(es, more, [1, 3], [2], 2, 2)
  {
    more := TickAndExit(es, more0, [1, 3], [2, 4], 1, 2);
    assert [2, 4][..1] == [2];
  }

  lemma ThirdExit(es: seq<Event>, more0: seq<Event>) returns (more: seq<Event>)
    requires StillPassed(es, more0, [1, 3], [2], 2, 2)
    ensures StillPassed(es, more, [1], [2], 1, 3)
  {
    more := TickAndExit(es, more0, [1, 3], [2], 2, 1);
    assert [1, 3][..1] == [1];
  }

  lemma Retreat(es: seq<Event>) returns (more: seq<Event>)
    requires AbsRun(es) == Crowd([1, 3, 5], [2, 4], 2)
    ensures Waits(es, more, 0) && Ticks(more) == 4
  {
    more := FirstExit(es);
    more := SecondExit(es, more);
    more := ThirdExit(es, more);
    TickTo(es + more, [1], [2], 1, 2);
    StillWaits(es, more, Tick);
    more := more + [Tick];
  }
}
