/** Whole runs of descriptor calls by one process. */
module Sessions {
  import opened Bytes
  import opened FileSystem
  import opened Directory
  import opened FileTable
  import opened Descriptors

  datatype Call = Open(fname: seq<byte>) | Read(fd: int, nbytes: int, other: int) | Close(fd: int)

  /** A file array, and per entry the name it was last opened with and the file bytes that reads have
      delivered since then. */
  datatype Session = Session(table: Table, names: seq<seq<byte>>, got: seq<seq<byte>>)

  predicate Complete(s: Session) {
    |s.names| == |s.got| == MAX_OPEN_FILES
  }

  ghost function Do(img: Image, s: Session, c: Call): (s': Session)
    requires WellFormed(img) && Complete(s)
    ensures Complete(s')
  {
    match c
    case Open(fname) =>
      var (t, r) := OpenStep(img, s.table, fname);
      if r < 0 then s else Session(t, s.names[r := fname], s.got[r := []])
    case Read(fd, nbytes, other) =>
      Session(ReadStep(img, s.table, fd, nbytes, other).0, s.names,
              if 0 <= fd < MAX_OPEN_FILES then s.got[fd := s.got[fd] + Delivered(img, s.table[fd], nbytes)] else s.got)
    case Close(fd) => Session(CloseStep(s.table, fd).0, s.names, s.got)
  }

  /** A process whose file array starts as `start`, after the calls cs. */
  ghost function Run(img: Image, start: Table, cs: seq<Call>): (s: Session)
    requires WellFormed(img)
    ensures Complete(s)
  {
    if cs == [] then Session(start, seq(MAX_OPEN_FILES, _ => []), seq(MAX_OPEN_FILES, _ => []))
    else Do(img, Run(img, start, cs[..|cs| - 1]), cs[|cs| - 1])
  }

  /** No entry holds a file, as in the tables that execute and execute_shells set up. */
  predicate Unused(t: Table) {
    forall k :: 0 <= k < MAX_OPEN_FILES ==> t[k].fileType == -1
  }

  /** An open regular file has delivered exactly the part of the file before its position. */
  ghost predicate InStep(img: Image, fd: Fd, got: seq<byte>)
    requires WellFormed(img)
  {
    IsOpen(fd) && fd.fileType == 2 ==>
      && fd.ops == FileOps && 0 <= fd.inode < |img.inodes|
      && 0 <= fd.position <= img.inodes[fd.inode].length
      && got == Contents(img, img.inodes[fd.inode])[..fd.position]
  }

  /** An entry that open has filled and close has not emptied belongs to the entry of that name. */
  predicate BelongsTo(img: Image, fd: Fd, name: seq<byte>)
    requires WellFormed(img)
  {
    IsOpen(fd) && fd.fileType != -1 ==>
      && Lookup(img, name).Some? && fd.inode == Lookup(img, name).value.inode
      && fd.fileType == Lookup(img, name).value.fileType && fd.ops == OpsFor(fd.fileType)
  }

  /** In every run of calls, an open entry belongs to the name it was opened with. */
  lemma {:induction false} NamesAreKept(img: Image, start: Table, cs: seq<Call>, k: int)
    requires WellFormed(img) && Unused(start) && 0 <= k < MAX_OPEN_FILES
    ensures BelongsTo(img, Run(img, start, cs).table[k], Run(img, start, cs).names[k])
  {
    if cs != [] {
      NamesAreKept(img, start, cs[..|cs| - 1], k);
    }
  }

  /** In every run of calls whose read counts are not negative, what has been delivered on an open
      regular file is that file up to the position. */
  lemma {:induction false} AllInStep(img: Image, start: Table, cs: seq<Call>, k: int)
    requires Usable(img) && Unused(start) && 0 <= k < MAX_OPEN_FILES
    requires forall i :: 0 <= i < |cs| && cs[i].Read? ==> 0 <= cs[i].nbytes < TWO31
    ensures InStep(img, Run(img, start, cs).table[k], Run(img, start, cs).got[k])
  {
    if cs != [] {
      var n := |cs| - 1;
      AllInStep(img, start, cs[..n], k);
      var s, c := Run(img, start, cs[..n]), cs[n];
      match c
      case Open(fname) => OpenKeepsInStep(img, s, fname, k);
      case Read(fd, nbytes, other) => if fd == k { ReadKeepsInStep(img, s.table[k], s.got[k], nbytes, other); }
      case Close(fd) =>
    }
  }

  /** An open regular file has delivered, since it was opened, exactly the beginning of the file of that
      name up to the position. */
  lemma DeliversTheNamedFile(img: Image, start: Table, cs: seq<Call>, k: int)
    requires Usable(img) && Unused(start) && 0 <= k < MAX_OPEN_FILES
    requires forall i :: 0 <= i < |cs| && cs[i].Read? ==> 0 <= cs[i].nbytes < TWO31
    ensures var s := Run(img, start, cs);
      IsOpen(s.table[k]) && s.table[k].fileType == 2 ==>
        Lookup(img, s.names[k]).Some? && Lookup(img, s.names[k]).value.inode < |img.inodes|
        && var file := Contents(img, img.inodes[Lookup(img, s.names[k]).value.inode]);
           0 <= s.table[k].position <= |file| && s.got[k] == file[..s.table[k].position]
  {
    AllInStep(img, start, cs, k);
    NamesAreKept(img, start, cs, k);
  }

  lemma OpenKeepsInStep(img: Image, s: Session, fname: seq<byte>, k: int)
    requires Usable(img) && Complete(s) && 0 <= k < MAX_OPEN_FILES
    requires InStep(img, s.table[k], s.got[k])
    ensures var s' := Do(img, s, Open(fname)); InStep(img, s'.table[k], s'.got[k])
  {
    LookupMeaning(img, fname);
    var (t, r) := OpenStep(img, s.table, fname);
    if r == k {
      var d := Lookup(img, fname).value;
      assert d in img.dentries;
      assert Contents(img, img.inodes[d.inode])[..0] == [];
    }
  }

  /** The counting of a read whose count is negative. */
  lemma NegativeCount(size: nat, pos: nat, nbytes: int)
    requires pos <= size <= BLOCKS_PER_INODE * BLOCK_SIZE && -TWO31 <= nbytes < 0
    ensures U32(pos) == pos && U32(nbytes) == TWO32 + nbytes
    ensures pos + nbytes < 0 ==> Stored(size, pos, U32(nbytes)) == Count(size, pos, U32(nbytes)) == size - pos
    ensures I32(size - pos) == size - pos && I32(size) == size
    ensures pos + nbytes >= 0 ==> Stored(size, pos, U32(nbytes)) == 0 && I32(Count(size, pos, U32(nbytes))) == nbytes
    ensures pos + nbytes >= 0 ==> I32(pos + nbytes) == pos + nbytes
  {
  }

  /** A read with a count that is not negative keeps a descriptor in step. */
  lemma ReadKeepsInStep(img: Image, fd: Fd, got: seq<byte>, nbytes: int, other: int)
    requires WellFormed(img) && InStep(img, fd, got) && 0 <= nbytes < TWO31
    ensures InStep(img, Advanced(fd, ReadValue(img, fd, nbytes, other)), got + Delivered(img, fd, nbytes))
  {
    if IsOpen(fd) && fd.fileType == 2 {
      var ino := img.inodes[fd.inode];
      assert GoodInode(img, ino);
      PlainCount(ino.length, fd.position, nbytes);
      Extend(Contents(img, ino), fd.position, Min(nbytes, ino.length - fd.position));
    }
  }

  lemma Extend(file: seq<byte>, pos: nat, n: nat)
    requires pos + n <= |file|
    ensures file[..pos] + file[pos..pos + n] == file[..pos + n]
  {
  }

  /** Exactly the counts that a read may not be given: a negative one whose sum with the position is
      not negative moves the position back without delivering anything. */
  lemma ReadInStepIff(img: Image, fd: Fd, got: seq<byte>, nbytes: int, other: int)
    requires WellFormed(img) && InStep(img, fd, got) && -TWO31 <= nbytes < TWO31
    requires IsOpen(fd) && fd.fileType == 2
    ensures InStep(img, Advanced(fd, ReadValue(img, fd, nbytes, other)), got + Delivered(img, fd, nbytes))
       <==> nbytes >= 0 || fd.position + nbytes < 0
  {
    var ino := img.inodes[fd.inode];
    assert GoodInode(img, ino);
    if nbytes >= 0 {
      ReadKeepsInStep(img, fd, got, nbytes, other);
    } else {
      NegativeCount(ino.length, fd.position, nbytes);
      Extend(Contents(img, ino), fd.position, ino.length - fd.position);
      var fd' := Advanced(fd, ReadValue(img, fd, nbytes, other));
      if fd.position + nbytes >= 0 {
        assert fd'.position == fd.position + nbytes && |got + Delivered(img, fd, nbytes)| == fd.position;
      }
    }
  }

  /** A read of an open regular file returns the number of bytes it delivers, as many as are asked for
      and still there; for a positive count that is 0 exactly when the whole file has been delivered. */
  lemma ReadReturnsItsCount(img: Image, t: Table, fd: int, got: seq<byte>, nbytes: int, other: int)
    requires WellFormed(img) && 0 <= fd < MAX_OPEN_FILES && InStep(img, t[fd], got) && 0 <= nbytes < TWO31
    requires IsOpen(t[fd]) && t[fd].fileType == 2
    ensures var r := ReadStep(img, t, fd, nbytes, other).1; var file := Contents(img, img.inodes[t[fd].inode]);
      && r == |Delivered(img, t[fd], nbytes)| == Min(nbytes, |file| - t[fd].position)
      && (nbytes > 0 ==> (r == 0 <==> got == file))
  {
    var file := Contents(img, img.inodes[t[fd].inode]);
    assert GoodInode(img, img.inodes[t[fd].inode]);
    PlainCount(|file|, t[fd].position, nbytes);
    assert file[..|file|] == file;
  }

  /** What a read of the other open entries returns, and of numbers that are no entries; and what any
      read changes. */
  lemma OtherReads(img: Image, t: Table, fd: int, nbytes: int, other: int)
    requires WellFormed(img)
    ensures var (u, r) := ReadStep(img, t, fd, nbytes, other);
      if fd < 0 || fd >= 8 then u == t && r == -1
      else
        && (forall k :: 0 <= k < 8 && k != fd ==> u[k] == t[k]) && u[fd] == t[fd].(position := u[fd].position)
        && (t[fd].flags != 0 ==>
              match t[fd].ops
              case StdIn => r == other
              case StdOut => r == -1
              case NoFunc => r == -1
              case RtcOps => r == 0 && (t[fd].fileType != 1 ==> u[fd].position == I32(t[fd].position))
              case DirOps => U32(t[fd].position) >= 63 ==> r == -1
              case FileOps => !(0 <= t[fd].inode < |img.inodes|) ==> r == -1)
  {
  }

  // ---------- slots ----------

  /** The entry that open fills, and the jump table it gets. */
  lemma OpenedEntry(img: Image, t: Table, fname: seq<byte>)
    requires WellFormed(img) && Lookup(img, fname).Some? && exists k :: 0 <= k < MAX_OPEN_FILES && !IsOpen(t[k])
    ensures var d := Lookup(img, fname).value; var (u, i) := OpenStep(img, t, fname);
      0 <= i < MAX_OPEN_FILES && u[i].flags != 0 && u[i].position == 0 && u[i].inode == d.inode
      && u[i].fileType == d.fileType
      && u[i].ops == if d.fileType == 0 then RtcOps else if d.fileType == 1 then DirOps else FileOps
  {
  }

  /** What close leaves of an entry, and what it returns: 0 for what open has opened, -1 for the two
      terminal entries, whose close takes inode 0 for a null pointer, and for an entry that is closed or
      does not exist. */
  lemma CloseEmptiesTheEntry(t: Table, fd: int)
    ensures var (u, r) := CloseStep(t, fd);
      if fd < 0 || fd >= 8 || t[fd].flags == 0 then u == t && r == -1
      else
        && u == t[fd := Fd(t[fd].ops, 0, -1, 0, 0)]
        && (t[fd].ops == FileOps || t[fd].ops == DirOps || t[fd].ops == RtcOps ==> r == 0)
        && ((t[fd].ops == StdIn || t[fd].ops == StdOut) && t[fd].inode == 0 ==> r == -1)
        && (t[fd].ops == NoFunc ==> r == -1)
  {
  }

  lemma NewTablesAreUnused(terminal: int)
    ensures Unused(FreshTable()) && Unused(BaseShellTable(terminal))
  {
  }

  /** open takes the lowest free entry and changes no other; when it fails nothing changes; and
      close gives the entry back. */
  lemma OpenTakesLowestFree(img: Image, t: Table, fname: seq<byte>)
    requires WellFormed(img)
    ensures var (u, r) := OpenStep(img, t, fname);
      && (r == FAILURE ==> u == t)
      && (r == FAILURE <==> Lookup(img, fname) == None || forall k :: 0 <= k < MAX_OPEN_FILES ==> IsOpen(t[k]))
      && (r != FAILURE ==> 0 <= r < MAX_OPEN_FILES && !IsOpen(t[r]) && IsOpen(u[r]))
      && (forall k :: 0 <= k < r ==> IsOpen(t[k]))
      && (forall k :: 0 <= k < MAX_OPEN_FILES && k != r ==> u[k] == t[k])
      && (r != FAILURE ==> forall k :: 0 <= k < MAX_OPEN_FILES ==> (IsOpen(CloseStep(u, r).0[k]) <==> IsOpen(t[k])))
  {
  }

  // ---------- counting free entries ----------

  /** How many of the entries from i on are closed. */
  function Free(t: Table, i: nat): (n: nat)
    requires i <= MAX_OPEN_FILES
    ensures n <= MAX_OPEN_FILES - i
    ensures n == 0 <==> forall k :: i <= k < MAX_OPEN_FILES ==> IsOpen(t[k])
    decreases |t| - i
  {
    if i == MAX_OPEN_FILES then 0 else (if IsOpen(t[i]) then 0 else 1) + Free(t, i + 1)
  }

  lemma {:induction false} FreeChanges(t: Table, u: Table, i: nat, k: int)
    requires i <= MAX_OPEN_FILES && 0 <= k < MAX_OPEN_FILES
    requires forall j :: 0 <= j < MAX_OPEN_FILES && j != k ==> (IsOpen(u[j]) <==> IsOpen(t[j]))
    ensures Free(u, i) == Free(t, i) +
      if i <= k then (if IsOpen(u[k]) then 0 else 1) - (if IsOpen(t[k]) then 0 else 1) else 0
    decreases MAX_OPEN_FILES - i
  {
    if i < MAX_OPEN_FILES {
      FreeChanges(t, u, i + 1, k);
    }
  }

  /** By how many entries a call changes the free ones: an open that succeeds takes one, and a close
      that clears one, whatever it returns, gives it back. */
  ghost function Change(img: Image, t: Table, c: Call): int
    requires WellFormed(img)
  {
    match c
    case Open(fname) => if OpenStep(img, t, fname).1 == FAILURE then 0 else -1
    case Read(_, _, _) => 0
    case Close(fd) => if 0 <= fd < MAX_OPEN_FILES && IsOpen(t[fd]) then 1 else 0
  }

  /** The entries that the calls cs have given back, less those they have taken. */
  ghost function Balance(img: Image, start: Table, cs: seq<Call>): int
    requires WellFormed(img)
  {
    if cs == [] then 0
    else
      var n := |cs| - 1;
      Balance(img, start, cs[..n]) + Change(img, Run(img, start, cs[..n]).table, cs[n])
  }

  lemma CallChangesFree(img: Image, s: Session, c: Call)
    requires WellFormed(img) && Complete(s)
    ensures Free(Do(img, s, c).table, 0) == Free(s.table, 0) + Change(img, s.table, c)
  {
    var t, u := s.table, Do(img, s, c).table;
    match c
    case Open(fname) =>
      OpenTakesLowestFree(img, t, fname);
      var r := OpenStep(img, t, fname).1;
      if r != FAILURE {
        FreeChanges(t, u, 0, r);
      }
    case Read(fd, nbytes, other) =>
      if 0 <= fd < MAX_OPEN_FILES {
        FreeChanges(t, u, 0, fd);
      }
    case Close(fd) =>
      if 0 <= fd < MAX_OPEN_FILES {
        FreeChanges(t, u, 0, fd);
      }
  }

  /** No entry is leaked: in every run, from every table, the free entries are those free at the start
      and the balance of the calls. */
  lemma {:induction false} FreeIsConserved(img: Image, start: Table, cs: seq<Call>)
    requires WellFormed(img)
    ensures Free(Run(img, start, cs).table, 0) == Free(start, 0) + Balance(img, start, cs)
  {
    if cs != [] {
      var n := |cs| - 1;
      FreeIsConserved(img, start, cs[..n]);
      CallChangesFree(img, Run(img, start, cs[..n]), cs[n]);
    }
  }

  /** After any run of a process started by execute, open fails exactly when the name is unknown or
      six more entries have been opened than closed. */
  lemma OpenFailsIff(img: Image, cs: seq<Call>, fname: seq<byte>)
    requires WellFormed(img)
    ensures OpenStep(img, Run(img, FreshTable(), cs).table, fname).1 == FAILURE <==>
      Lookup(img, fname) == None || Balance(img, FreshTable(), cs) == -6
  {
    FreeIsConserved(img, FreshTable(), cs);
    OpenTakesLowestFree(img, Run(img, FreshTable(), cs).table, fname);
    FreeAtStart(2);
  }

  lemma FreeAtStart(terminal: int)
    ensures Free(FreshTable(), 0) == 6
    ensures Free(BaseShellTable(terminal), 0) == if terminal < STD_FILES then 0 else 8
  {
    var t, u := FreshTable(), BaseShellTable(terminal);
    assert Free(t, 8) == Free(u, 8) == 0;
    assert Free(t, 6) == 2;
    assert Free(t, 4) == 4;
    assert Free(t, 2) == 6;
    assert terminal >= STD_FILES ==> Free(u, 6) == 2;
    assert terminal >= STD_FILES ==> Free(u, 4) == 4;
    assert terminal >= STD_FILES ==> Free(u, 2) == 6;
  }

  /** After any run of a base shell of terminal 0 or 1, open fails exactly when the name is unknown or
      every entry that a close has cleared has been taken again: before the first close, always. */
  lemma BaseShellOpenFailsIff(img: Image, terminal: int, cs: seq<Call>, fname: seq<byte>)
    requires WellFormed(img) && terminal < STD_FILES
    ensures OpenStep(img, Run(img, BaseShellTable(terminal), cs).table, fname).1 == FAILURE <==>
      Lookup(img, fname) == None || Balance(img, BaseShellTable(terminal), cs) == 0
    ensures (forall i :: 0 <= i < |cs| ==> !cs[i].Close?) ==> Balance(img, BaseShellTable(terminal), cs) == 0
  {
    var start := BaseShellTable(terminal);
    FreeAtStart(terminal);
    FreeIsConserved(img, start, cs);
    OpenTakesLowestFree(img, Run(img, start, cs).table, fname);
    if forall i :: 0 <= i < |cs| ==> !cs[i].Close? {
      NothingToTake(img, start, cs);
    }
  }

  lemma {:induction false} NothingToTake(img: Image, start: Table, cs: seq<Call>)
    requires WellFormed(img) && Free(start, 0) == 0 && forall i :: 0 <= i < |cs| ==> !cs[i].Close?
    ensures Balance(img, start, cs) == 0
  {
    if cs != [] {
      var n := |cs| - 1;
      NothingToTake(img, start, cs[..n]);
      FreeIsConserved(img, start, cs[..n]);
    }
  }

  // ---------- after close ----------

  /** After close the old read function is still reachable: a read of the closed entry fails only when
      that function fails at inode 0 and position 0, or when it returns 1. */
  lemma ReadAfterCloseFailsIff(img: Image, t: Table, fd: int, nbytes: int, other: int)
    requires WellFormed(img) && 0 <= fd < MAX_OPEN_FILES && IsOpen(t[fd])
    ensures var u := CloseStep(t, fd).0;
      !IsOpen(u[fd]) &&
      (ReadStep(img, u, fd, nbytes, other).1 == FAILURE <==>
        match t[fd].ops
        case StdIn => other == -1 || other == 1
        case StdOut => true
        case NoFunc => true
        case RtcOps => false
        case DirOps => DirCount(img.dentries[0], nbytes) == 1
        case FileOps => img.inodes == [] || Min(U32(nbytes), img.inodes[0].length) == 1)
  {
    if t[fd].ops == FileOps && img.inodes != [] {
      assert GoodInode(img, img.inodes[0]);
    }
  }

  /** What a read of a closed regular-file entry delivers is the beginning of inode 0, as if that file
      had been opened. */
  lemma ReadAfterCloseStillDelivers(img: Image, t: Table, fd: int, nbytes: int)
    requires WellFormed(img) && 0 <= fd < MAX_OPEN_FILES && IsOpen(t[fd]) && t[fd].ops == FileOps
    requires img.inodes != []
    ensures Delivered(img, CloseStep(t, fd).0[fd], nbytes) ==
      Contents(img, img.inodes[0])[..Min(U32(nbytes), img.inodes[0].length)]
  {
    var ino := img.inodes[0];
    assert GoodInode(img, ino);
    assert Stored(ino.length, 0, U32(nbytes)) == Min(U32(nbytes), ino.length);
  }

  // ---------- halt ----------

  lemma OneCall(img: Image, cs: seq<Call>, c: Call)
    requires WellFormed(img)
    ensures Run(img, FreshTable(), cs + [c]) == Do(img, Run(img, FreshTable(), cs), c)
  {
    OneCallFrom(img, FreshTable(), cs, c);
  }

  /** A run after which halt misses a descriptor: two opens, and a close of the first. */
  lemma HaltCanMissADescriptor(img: Image, fname: seq<byte>)
    requires WellFormed(img) && Lookup(img, fname).Some?
    ensures var t := Run(img, FreshTable(), [Open(fname), Open(fname), Close(2)]).table;
      IsOpen(t[3]) && IsOpen(CloseFrom(t, 0)[3])
  {
    var t0 := FreshTable();
    var t1, t2 := OpenStep(img, t0, fname).0, Run(img, FreshTable(), [Open(fname), Open(fname)]).table;
    assert [] + [Open(fname)] == [Open(fname)] && [Open(fname)] + [Open(fname)] == [Open(fname), Open(fname)];
    assert [Open(fname), Open(fname)] + [Close(2)] == [Open(fname), Open(fname), Close(2)];
    OneCall(img, [], Open(fname));
    OneCall(img, [Open(fname)], Open(fname));
    OneCall(img, [Open(fname), Open(fname)], Close(2));
    OpensAt(img, t0, fname, 2);
    OpensAt(img, t1, fname, 3);
    var t := CloseStep(t2, 2).0;
    assert IsOpen(t[3]) && !IsOpen(t[2]);
    StaysOpenIff(t, 3);
  }

  /** Where open finds its entry. */
  lemma OpensAt(img: Image, t: Table, fname: seq<byte>, r: int)
    requires WellFormed(img) && Lookup(img, fname).Some?
    requires 0 <= r < MAX_OPEN_FILES && !IsOpen(t[r]) && forall k :: 0 <= k < r ==> IsOpen(t[k])
    ensures var (u, i) := OpenStep(img, t, fname);
      i == r && IsOpen(u[r]) && forall k :: 0 <= k < MAX_OPEN_FILES && k != r ==> u[k] == t[k]
  {
    OpenTakesLowestFree(img, t, fname);
  }

  // ---------- negative counts ----------

  /** By how much a read moves a position back. */
  function BackBy(fd: Fd, nbytes: int): nat {
    if nbytes < 0 <= fd.position + nbytes then -nbytes else 0
  }

  /** By how much the reads of entry k since it was last opened have moved its position back. */
  ghost function Slipped(img: Image, start: Table, cs: seq<Call>, k: int): nat
    requires WellFormed(img) && 0 <= k < MAX_OPEN_FILES
  {
    if cs == [] then 0
    else
      var n := |cs| - 1;
      var t := Run(img, start, cs[..n]).table;
      match cs[n]
      case Open(fname) => if OpenStep(img, t, fname).1 == k then 0 else Slipped(img, start, cs[..n], k)
      case Read(fd, nbytes, _) => Slipped(img, start, cs[..n], k) + if fd == k then BackBy(t[k], nbytes) else 0
      case Close(_) => Slipped(img, start, cs[..n], k)
  }

  /** An open regular file has delivered `slip` bytes more than its position says; with none it is in
      step. */
  ghost predicate Trails(img: Image, fd: Fd, got: seq<byte>, slip: nat)
    requires WellFormed(img)
  {
    IsOpen(fd) && fd.fileType == 2 ==>
      && fd.ops == FileOps && 0 <= fd.inode < |img.inodes|
      && 0 <= fd.position <= img.inodes[fd.inode].length
      && |got| == fd.position + slip
      && (slip == 0 ==> InStep(img, fd, got))
  }

  lemma ReadTrails(img: Image, fd: Fd, got: seq<byte>, slip: nat, nbytes: int, other: int)
    requires WellFormed(img) && Trails(img, fd, got, slip) && -TWO31 <= nbytes < TWO31
    ensures Trails(img, Advanced(fd, ReadValue(img, fd, nbytes, other)), got + Delivered(img, fd, nbytes),
                   slip + BackBy(fd, nbytes))
  {
    if IsOpen(fd) && fd.fileType == 2 {
      var ino := img.inodes[fd.inode];
      assert GoodInode(img, ino);
      if slip == 0 {
        ReadInStepIff(img, fd, got, nbytes, other);
      }
      if nbytes >= 0 {
        PlainCount(ino.length, fd.position, nbytes);
      } else {
        NegativeCount(ino.length, fd.position, nbytes);
      }
    }
  }

  lemma OpenTrails(img: Image, s: Session, fname: seq<byte>, k: int, slip: nat)
    requires Usable(img) && Complete(s) && 0 <= k < MAX_OPEN_FILES && Trails(img, s.table[k], s.got[k], slip)
    ensures var s' := Do(img, s, Open(fname));
      Trails(img, s'.table[k], s'.got[k], if OpenStep(img, s.table, fname).1 == k then 0 else slip)
  {
    LookupMeaning(img, fname);
    var (t, r) := OpenStep(img, s.table, fname);
    if r == k {
      var d := Lookup(img, fname).value;
      assert d in img.dentries;
      assert Contents(img, img.inodes[d.inode])[..0] == [];
    }
  }

  lemma {:induction false} AllTrail(img: Image, start: Table, cs: seq<Call>, k: int)
    requires Usable(img) && Unused(start) && 0 <= k < MAX_OPEN_FILES
    requires forall i :: 0 <= i < |cs| && cs[i].Read? ==> -TWO31 <= cs[i].nbytes < TWO31
    ensures Trails(img, Run(img, start, cs).table[k], Run(img, start, cs).got[k], Slipped(img, start, cs, k))
  {
    if cs != [] {
      var n := |cs| - 1;
      AllTrail(img, start, cs[..n], k);
      var s := Run(img, start, cs[..n]);
      match cs[n]
      case Open(fname) => OpenTrails(img, s, fname, k, Slipped(img, start, cs[..n], k));
      case Read(fd, nbytes, other) =>
        if fd == k {
          ReadTrails(img, s.table[k], s.got[k], Slipped(img, start, cs[..n], k), nbytes, other);
        }
      case Close(fd) =>
    }
  }

  /** Over every run, whatever the counts of its reads, an open regular file is in step exactly when no
      read since its open has moved its position back. */
  lemma RunInStepIff(img: Image, start: Table, cs: seq<Call>, k: int)
    requires Usable(img) && Unused(start) && 0 <= k < MAX_OPEN_FILES
    requires forall i :: 0 <= i < |cs| && cs[i].Read? ==> -TWO31 <= cs[i].nbytes < TWO31
    ensures var s := Run(img, start, cs);
      IsOpen(s.table[k]) && s.table[k].fileType == 2 ==>
        (InStep(img, s.table[k], s.got[k]) <==> Slipped(img, start, cs, k) == 0)
        && |s.got[k]| == s.table[k].position + Slipped(img, start, cs, k)
  {
    AllTrail(img, start, cs, k);
  }

  /** A run after which a descriptor is out of step: two bytes read, and then a read of -1. */
  lemma ANegativeCountGoesBack(img: Image, fname: seq<byte>)
    requires Usable(img) && Lookup(img, fname).Some? && Lookup(img, fname).value.fileType == 2
    requires Lookup(img, fname).value.inode < |img.inodes|
    requires img.inodes[Lookup(img, fname).value.inode].length >= 2
    ensures var s := Run(img, FreshTable(), [Open(fname), Read(2, 2, 0), Read(2, -1, 0)]);
      IsOpen(s.table[2]) && s.table[2].position == 1 && |s.got[2]| == 2 && !InStep(img, s.table[2], s.got[2])
  {
    hide ReadValue, Delivered, OpenStep;
    assert [] + [Open(fname)] == [Open(fname)];
    assert [Open(fname)] + [Read(2, 2, 0)] == [Open(fname), Read(2, 2, 0)];
    assert [Open(fname), Read(2, 2, 0)] + [Read(2, -1, 0)] == [Open(fname), Read(2, 2, 0), Read(2, -1, 0)];
    OneCall(img, [], Open(fname));
    OneCall(img, [Open(fname)], Read(2, 2, 0));
    OneCall(img, [Open(fname), Read(2, 2, 0)], Read(2, -1, 0));
    OpensAt(img, FreshTable(), fname, 2);
    assert !IsOpen(FreshTable()[2]);
    OpenedEntry(img, FreshTable(), fname);
    TwoThenBack(img, OpenStep(img, FreshTable(), fname).0[2]);
  }

  lemma TwoThenBack(img: Image, fd: Fd)
    requires WellFormed(img) && fd.ops == FileOps && fd.fileType == 2 && fd.position == 0
    requires 0 <= fd.inode < |img.inodes| && img.inodes[fd.inode].length >= 2
    ensures ReadValue(img, fd, 2, 0) == 2 && |Delivered(img, fd, 2)| == 2
    ensures var there := Advanced(fd, 2);
      there.position == 2 && ReadValue(img, there, -1, 0) == -1 && |Delivered(img, there, -1)| == 0
      && Advanced(there, -1).position == 1
  {
    var ino := img.inodes[fd.inode];
    assert GoodInode(img, ino);
    PlainCount(ino.length, 0, 2);
    NegativeCount(ino.length, 2, -1);
  }

  // ---------- listing a directory ----------

  function FirstEmpty(img: Image, i: nat): (r: nat)
    requires WellFormed(img) && i <= NUM_DENTRIES
    ensures i <= r <= NUM_DENTRIES
    ensures forall k :: i <= k < r ==> Name(img.dentries[k]) != []
    ensures r < NUM_DENTRIES ==> Name(img.dentries[r]) == []
    decreases |img.dentries| - i
  {
    if i < NUM_DENTRIES && Name(img.dentries[i]) != [] then FirstEmpty(img, i + 1) else i
  }

  /** An open directory descriptor after k reads of 32 bytes. */
  function AfterReads(img: Image, fd: Fd, k: nat): Fd
    requires WellFormed(img)
  {
    if k == 0 then fd
    else var f := AfterReads(img, fd, k - 1); Advanced(f, ReadValue(img, f, NAME_SIZE, 0))
  }

  /** The open directory descriptor whose position is p. */
  predicate Listing(f: Fd, p: nat) {
    f.ops == DirOps && f.fileType == 1 && f.position == p
  }

  /** What one 32-byte read of an open directory does at a position p up to e, the first empty entry. */
  lemma OneListing(img: Image, f: Fd, p: nat, e: nat)
    requires WellFormed(img) && p <= e <= NUM_DENTRIES && Listing(f, p)
    requires p < e ==> Name(img.dentries[p]) != []
    requires p == e < NUM_DENTRIES ==> Name(img.dentries[p]) == []
    ensures var value := ReadValue(img, f, NAME_SIZE, 0);
      && Listing(Advanced(f, value), Min(p + 1, e))
      && (p < e ==> value == |Name(img.dentries[p])|)
      && (p == e ==> value == if e < NUM_DENTRIES then 0 else FAILURE)
  {
    assert U32(p) == p;
    if p < NUM_DENTRIES {
      FullNameRead(img.dentries[p], NAME_SIZE);
    }
  }

  lemma {:induction false} ListingPosition(img: Image, fd: Fd, k: nat)
    requires WellFormed(img) && Listing(fd, 0)
    ensures Listing(AfterReads(img, fd, k), Min(k, FirstEmpty(img, 0)))
  {
    if k > 0 {
      ListingPosition(img, fd, k - 1);
      OneListing(img, AfterReads(img, fd, k - 1), Min(k - 1, FirstEmpty(img, 0)), FirstEmpty(img, 0));
    }
  }

  /** Reading a directory in 32-byte reads returns entry k's name on read k, once and in order, up to
      the first empty entry; from there on every read returns 0 (or -1 behind a full directory) and
      the position stays. */
  lemma ListingIsComplete(img: Image, fd: Fd, k: nat)
    requires WellFormed(img) && Listing(fd, 0)
    ensures var f := AfterReads(img, fd, k); var e := FirstEmpty(img, 0);
      && f.position == Min(k, e)
      && (k < e ==> var d := img.dentries[k];
           ReadValue(img, f, NAME_SIZE, 0) == |Name(d)| > 0 && NameMemory(d)[..|Name(d)|] == Name(d))
      && (k >= e ==> ReadValue(img, f, NAME_SIZE, 0) == if e < NUM_DENTRIES then 0 else FAILURE)
  {
    ListingPosition(img, fd, k);
    if k < FirstEmpty(img, 0) {
      FullNameRead(img.dentries[k], NAME_SIZE);
    }
    OneListing(img, AfterReads(img, fd, k), Min(k, FirstEmpty(img, 0)), FirstEmpty(img, 0));
  }

  function Repeat(c: Call, k: nat): seq<Call> {
    if k == 0 then [] else Repeat(c, k - 1) + [c]
  }

  /** The table after opening a directory and k reads of 32 bytes. */
  lemma {:induction false} DirectoryRun(img: Image, start: Table, fname: seq<byte>, k: nat)
    requires WellFormed(img) && Lookup(img, fname).Some? && Lookup(img, fname).value.fileType == 1
    requires FirstFree(start, 0) < MAX_OPEN_FILES
    ensures var i := FirstFree(start, 0); var d := Lookup(img, fname).value;
      Run(img, start, [Open(fname)] + Repeat(Read(i, 32, 0), k)).table[i] ==
        AfterReads(img, Fd(DirOps, d.inode, 1, 0, 1), k)
  {
    hide ReadValue, Run, OpenStep;
    var i := FirstFree(start, 0);
    var c := Read(i, 32, 0);
    if k == 0 {
      DirectoryOpened(img, start, fname);
      assert [Open(fname)] + Repeat(c, 0) == [Open(fname)];
    } else {
      DirectoryRun(img, start, fname, k - 1);
      LastRepeat([Open(fname)], c, k);
      OneCallFrom(img, start, [Open(fname)] + Repeat(c, k - 1), c);
    }
  }

  lemma DirectoryOpened(img: Image, start: Table, fname: seq<byte>)
    requires WellFormed(img) && Lookup(img, fname).Some? && Lookup(img, fname).value.fileType == 1
    requires FirstFree(start, 0) < MAX_OPEN_FILES
    ensures Run(img, start, [Open(fname)]).table[FirstFree(start, 0)] ==
      Fd(DirOps, Lookup(img, fname).value.inode, 1, 0, 1)
  {
    assert [] + [Open(fname)] == [Open(fname)];
    OneCallFrom(img, start, [], Open(fname));
  }

  lemma LastRepeat(cs: seq<Call>, c: Call, k: nat)
    requires k > 0
    ensures cs + Repeat(c, k) == cs + Repeat(c, k - 1) + [c]
  {
  }

  lemma OneCallFrom(img: Image, start: Table, cs: seq<Call>, c: Call)
    requires WellFormed(img)
    ensures Run(img, start, cs + [c]) == Do(img, Run(img, start, cs), c)
  {
    assert (cs + [c])[..|cs|] == cs;
  }

  /** Opening a directory, in any process with a free entry, and reading it 32 bytes at a time returns
      on read k the length of entry k's name, once and in order, up to the first empty entry, and from
      there on 0, or -1 behind a full directory. */
  lemma DirectoryRunLists(img: Image, start: Table, fname: seq<byte>, k: nat)
    requires WellFormed(img) && Lookup(img, fname).Some? && Lookup(img, fname).value.fileType == 1
    requires FirstFree(start, 0) < MAX_OPEN_FILES
    ensures var i, e := FirstFree(start, 0), FirstEmpty(img, 0);
      var t := Run(img, start, [Open(fname)] + Repeat(Read(i, 32, 0), k)).table;
      var r := ReadStep(img, t, i, 32, 0).1;
      && t[i].flags != 0
      && (k < e ==> r == |Name(img.dentries[k])| > 0 && Passed(img, t[i], 32) == Name(img.dentries[k]))
      && (k >= e ==> r == if e < 63 then 0 else -1)
  {
    hide ReadValue, Run, OpenStep, Passed;
    DirectoryRun(img, start, fname, k);
    var d := Fd(DirOps, Lookup(img, fname).value.inode, 1, 0, 1);
    StaysOpen(img, d, k);
    ListingPosition(img, d, k);
    ListingIsComplete(img, d, k);
    NameIsPassed(img, AfterReads(img, d, k), k);
  }

  lemma NameIsPassed(img: Image, f: Fd, k: nat)
    requires WellFormed(img) && Listing(f, Min(k, FirstEmpty(img, 0)))
    ensures k < FirstEmpty(img, 0) ==> Passed(img, f, 32) == Name(img.dentries[k])
  {
    if k < FirstEmpty(img, 0) {
      assert U32(f.position) == k;
      FullNameRead(img.dentries[k], 32);
    }
  }

  lemma {:induction false} StaysOpen(img: Image, fd: Fd, k: nat)
    requires WellFormed(img)
    ensures AfterReads(img, fd, k).flags == fd.flags
  {
    if k > 0 {
      StaysOpen(img, fd, k - 1);
    }
  }
}
