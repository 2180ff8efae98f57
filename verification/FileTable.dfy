/** File-array entries of a process control block and the tables they start from. */
module FileTable {
  const MAX_OPEN_FILES: int := 8
  const STD_FILES: int := 2

  /** Which jump table an entry holds. */
  datatype Ops = StdIn | StdOut | NoFunc | RtcOps | DirOps | FileOps

  datatype Fd = Fd(ops: Ops, inode: int, fileType: int, position: int, flags: int)

  type Table = t: seq<Fd> | |t| == MAX_OPEN_FILES witness seq(MAX_OPEN_FILES, i => FreshSlot(i))

  function InitialOps(i: int): Ops {
    if i == 0 then StdIn else if i == 1 then StdOut else NoFunc
  }

  function FreshSlot(i: int): Fd {
    Fd(InitialOps(i), 0, -1, 0, if i < STD_FILES then 1 else 0)
  }

  /** The table that `execute` gives a new process. */
  function FreshTable(): Table {
    seq(MAX_OPEN_FILES, i => FreshSlot(i))
  }

  /** The table that `execute_shells` gives the base shell of a terminal: every flag follows the
      terminal number, not the slot number. */
  function BaseShellTable(terminal: int): Table {
    seq(MAX_OPEN_FILES, i => Fd(InitialOps(i), 0, -1, 0, if terminal < STD_FILES then 1 else 0))
  }

  /** What a new process finds: the keyboard at 0, the screen at 1, and six closed entries. */
  lemma FreshEntries(k: int)
    requires 0 <= k < MAX_OPEN_FILES
    ensures FreshTable()[k] ==
      if k == 0 then Fd(StdIn, 0, -1, 0, 1) else if k == 1 then Fd(StdOut, 0, -1, 0, 1) else Fd(NoFunc, 0, -1, 0, 0)
    ensures BaseShellTable(2)[k] == FreshTable()[k].(flags := 0)
    ensures BaseShellTable(0)[k] == BaseShellTable(1)[k] == FreshTable()[k].(flags := 1)
  {
  }

  /** An entry after `close`: the jump table stays. */
  function Closed(fd: Fd): Fd {
    Fd(fd.ops, 0, -1, 0, 0)
  }

  predicate IsOpen(fd: Fd) {
    fd.flags != 0
  }

  /** What `halt` leaves: entries are closed from slot i on, up to the first closed one. */
  function CloseFrom(t: Table, i: nat): (r: Table)
    requires i <= MAX_OPEN_FILES
    decreases |t| - i
  {
    if i == MAX_OPEN_FILES || !IsOpen(t[i]) then t else CloseFrom(t[i := Closed(t[i])], i + 1)
  }

  /** Slots i..k are all open. */
  predicate OpenThrough(t: Table, i: nat, k: nat) {
    forall j :: i <= j <= k && j < MAX_OPEN_FILES ==> IsOpen(t[j])
  }

  lemma {:induction false} CloseFromEffect(t: Table, i: nat, k: nat)
    requires i <= MAX_OPEN_FILES && k < MAX_OPEN_FILES
    ensures CloseFrom(t, i)[k] == if i <= k && OpenThrough(t, i, k) then Closed(t[k]) else t[k]
    decreases MAX_OPEN_FILES - i
  {
    if i < MAX_OPEN_FILES && IsOpen(t[i]) {
      var u: Table := t[i := Closed(t[i])];
      CloseFromEffect(u, i + 1, k);
      assert i < k ==> (OpenThrough(t, i, k) <==> OpenThrough(u, i + 1, k)) by {
        assert forall j :: i < j < MAX_OPEN_FILES ==> u[j] == t[j];
      }
    }
  }

  /** `halt` leaves a descriptor open exactly when it lies above a closed one. */
  lemma StaysOpenIff(t: Table, k: nat)
    requires k < MAX_OPEN_FILES
    ensures IsOpen(CloseFrom(t, 0)[k]) <==> IsOpen(t[k]) && !OpenThrough(t, 0, k)
  {
    CloseFromEffect(t, 0, k);
  }

  predicate AllClosed(t: Table) {
    forall k :: 0 <= k < MAX_OPEN_FILES ==> !IsOpen(t[k])
  }

  /** No open descriptor lies above a closed one. */
  predicate NoGap(t: Table) {
    forall j, k :: 0 <= j < k < MAX_OPEN_FILES && IsOpen(t[k]) ==> IsOpen(t[j])
  }

  /** `halt` closes every descriptor exactly when there is no gap. */
  lemma HaltClosesAllIff(t: Table)
    ensures AllClosed(CloseFrom(t, 0)) <==> NoGap(t)
  {
    var r := CloseFrom(t, 0);
    if AllClosed(r) {
      forall j, k | 0 <= j < k < MAX_OPEN_FILES && IsOpen(t[k])
        ensures IsOpen(t[j])
      {
        StaysOpenIff(t, k);
        assert !IsOpen(r[k]);
      }
    }
    if NoGap(t) {
      forall k | 0 <= k < MAX_OPEN_FILES
        ensures !IsOpen(r[k])
      {
        StaysOpenIff(t, k);
        assert IsOpen(t[k]) ==> forall j :: 0 <= j < k ==> IsOpen(t[j]);
      }
    }
  }
}
