/** open, read and close on a process's file array, and what any interleaving of them delivers. */
module Descriptors {
  import opened Bytes
  import opened FileSystem
  import opened Directory
  import opened FileTable

  /** An image whose entries point at inodes. */
  ghost predicate Usable(img: Image) {
    WellFormed(img) && forall i :: 0 <= i < NUM_DENTRIES ==> img.dentries[i].inode < |img.inodes|
  }

  function OpsFor(fileType: int): Ops {
    if fileType == 0 then RtcOps else if fileType == 1 then DirOps else FileOps
  }

  // ---------- the calls on a table ----------

  function FirstFree(t: Table, i: nat): (r: nat)
    requires i <= MAX_OPEN_FILES
    ensures i <= r <= MAX_OPEN_FILES
    ensures forall j :: i <= j < r ==> IsOpen(t[j])
    ensures r < MAX_OPEN_FILES ==> !IsOpen(t[r])
    decreases |t| - i
  {
    if i < MAX_OPEN_FILES && IsOpen(t[i]) then FirstFree(t, i + 1) else i
  }

  function OpenStep(img: Image, t: Table, fname: seq<byte>): (Table, int)
    requires WellFormed(img)
  {
    match Lookup(img, fname)
    case None => (t, FAILURE)
    case Some(d) =>
      var i := FirstFree(t, 0);
      if i == MAX_OPEN_FILES then (t, FAILURE)
      else (t[i := Fd(OpsFor(d.fileType), d.inode, d.fileType, 0, 1)], i)
  }

  /** What an entry's read function returns; `other` is what a terminal read returns. */
  function ReadValue(img: Image, fd: Fd, nbytes: int, other: int): int
    requires WellFormed(img)
  {
    match fd.ops
    case StdIn => other
    case StdOut => FAILURE
    case NoFunc => FAILURE
    case RtcOps => 0
    case DirOps => if U32(fd.position) >= NUM_DENTRIES then FAILURE
        else DirCount(img.dentries[U32(fd.position)], nbytes)
    case FileOps =>
      if !(0 <= fd.inode < |img.inodes|) || U32(fd.position) > img.inodes[fd.inode].length then FAILURE
      else I32(Count(img.inodes[fd.inode].length, U32(fd.position), U32(nbytes)))
  }

  /** The caller's buffer is large enough for what an entry's read function does with it. */
  ghost predicate Readable(img: Image, fd: Fd, nbytes: int, b: seq<byte>, base: nat)
    requires WellFormed(img)
  {
    match fd.ops
    case DirOps => Clearable(b, base) && DirFits(img, U32(fd.position), nbytes, b, base)
    case FileOps => Clearable(b, base) && fd.inode >= 0 && Fits(img, fd.inode, U32(fd.position), U32(nbytes), b, base)
    case _ => true
  }

  function Advanced(fd: Fd, value: int): Fd {
    fd.(position := I32(fd.position + if fd.fileType == 1 then (if value > 0 then 1 else 0) else value))
  }

  function ReadStep(img: Image, t: Table, fd: int, nbytes: int, other: int): (Table, int)
    requires WellFormed(img)
  {
    if fd < 0 || fd >= MAX_OPEN_FILES then (t, FAILURE)
    else
      var value := ReadValue(img, t[fd], nbytes, other);
      (t[fd := Advanced(t[fd], value)], if t[fd].flags == 0 && value == 1 then FAILURE else value)
  }

  /** The bytes of a regular file that one read stores in the caller's buffer. */
  ghost function Delivered(img: Image, fd: Fd, nbytes: int): seq<byte>
    requires WellFormed(img)
  {
    if fd.ops != FileOps || !(0 <= fd.inode < |img.inodes|) || U32(fd.position) > img.inodes[fd.inode].length then []
    else
      var ino := img.inodes[fd.inode];
      var p := U32(fd.position);
      Contents(img, ino)[p..p + Stored(ino.length, p, U32(nbytes))]
  }

  /** The bytes that one read stores in the caller's buffer: of a file or of an entry's name. */
  ghost function Passed(img: Image, fd: Fd, nbytes: int): seq<byte>
    requires WellFormed(img)
  {
    if fd.ops == DirOps && U32(fd.position) < NUM_DENTRIES then
      NameMemory(img.dentries[U32(fd.position)])[..DirCount(img.dentries[U32(fd.position)], nbytes)]
    else Delivered(img, fd, nbytes)
  }

  /** An open file or directory entry whose position is within the file or the directory. */
  ghost predicate Plain(img: Image, fd: Fd)
    requires WellFormed(img)
  {
    IsOpen(fd) &&
    match fd.ops
    case FileOps => 0 <= fd.inode < |img.inodes| && 0 <= fd.position <= img.inodes[fd.inode].length
    case DirOps => 0 <= fd.position < NUM_DENTRIES
    case _ => false
  }

  /** Reading such an entry returns the number of bytes it passes. */
  lemma PlainReturnsItsCount(img: Image, fd: Fd, nbytes: int, other: int)
    requires WellFormed(img)
    ensures Plain(img, fd) && 0 <= nbytes < TWO31 ==> ReadValue(img, fd, nbytes, other) == |Passed(img, fd, nbytes)|
  {
    if Plain(img, fd) && 0 <= nbytes < TWO31 {
      assert U32(fd.position) == fd.position;
      if fd.ops == FileOps {
        assert GoodInode(img, img.inodes[fd.inode]);
        PlainCount(img.inodes[fd.inode].length, fd.position, nbytes);
      }
    }
  }

  function CloseStep(t: Table, fd: int): (Table, int) {
    if fd < 0 || fd >= MAX_OPEN_FILES || !IsOpen(t[fd]) then (t, FAILURE)
    else (t[fd := Closed(t[fd])], CloseValue(t[fd]))
  }

  /** What an entry's close function returns: terminal_close takes inode 0 for a null pointer. */
  function CloseValue(fd: Fd): int {
    match fd.ops
    case StdIn => if fd.inode == 0 then -1 else 0
    case StdOut => if fd.inode == 0 then -1 else 0
    case NoFunc => -1
    case RtcOps => 0
    case DirOps => 0
    case FileOps => 0
  }

  /** Blanking a buffer and storing data at its start leaves the rest. */
  lemma StoredBehindBlanks(b: seq<byte>, now: seq<byte>, base: nat, data: seq<byte>)
    requires base + |data| <= |b|
    ensures var c := Cleared(b, base);
      now == c[..base] + data + c[base + |data|..] ==>
        |now| == |b| && now[base..base + |data|] == data
        && forall i :: 0 <= i < |b| && !(base <= i < base + NAME_SIZE) && !(base <= i < base + |data|) ==>
             now[i] == b[i]
    ensures forall i :: 0 <= i < |b| && !(base <= i < base + NAME_SIZE) ==> Cleared(b, base)[i] == b[i]
  {
  }

  // ---------- the calls in place ----------

  class Process {
    const fileArray: array<Fd>

    ghost predicate Valid() {
      fileArray.Length == MAX_OPEN_FILES
    }

    constructor ()
      ensures Valid() && fresh(fileArray) && fileArray[..] == FreshTable()
    {
      fileArray := new Fd[MAX_OPEN_FILES](i => FreshSlot(i));
    }

    method Open(img: Image, fname: seq<byte>) returns (r: int)
      requires Valid() && WellFormed(img) && 0 !in fname
      modifies fileArray
      ensures (fileArray[..], r) == OpenStep(img, old(fileArray[..]), fname)
    {
      var d := ReadDentryByName(img, fname);
      if d == None {
        return FAILURE;
      }
      var i := 0;
      while i < MAX_OPEN_FILES && IsOpen(fileArray[i])
        invariant 0 <= i <= MAX_OPEN_FILES
        invariant FirstFree(fileArray[..], 0) == FirstFree(fileArray[..], i)
      {
        i := i + 1;
      }
      if i == MAX_OPEN_FILES {
        return FAILURE;
      }
      fileArray[i] := Fd(OpsFor(d.value.fileType), d.value.inode, d.value.fileType, 0, 1);
      // rtc_open returns 0; dir_open and file_open look the name up again
      if !fileArray[i].ops.RtcOps? {
        var again := ReadDentryByName(img, fname);
        if again == None {
          return FAILURE;
        }
      }
      r := i;
    }

    /** The jump through an entry's table, and what it stores in the caller's buffer. */
    method ReadEntry(img: Image, entry: Fd, buf: array<byte>, base: nat, nbytes: int, other: int) returns (value: int)
      requires WellFormed(img) && base <= buf.Length && Readable(img, entry, nbytes, buf[..], base)
      modifies buf
      ensures value == ReadValue(img, entry, nbytes, other)
      ensures var data := Passed(img, entry, nbytes);
        base + |data| <= buf.Length && buf[base..base + |data|] == data
        && forall i :: 0 <= i < buf.Length && !(base <= i < base + NAME_SIZE) && !(base <= i < base + |data|) ==>
             buf[i] == old(buf[i])
    {
      hide Contents, Cleared, NameMemory, Clearable;
      ghost var b := buf[..];
      match entry.ops {
        case StdIn => value := other;
        case StdOut => value := FAILURE;
        case NoFunc => value := FAILURE;
        case RtcOps => value := 0;
        case DirOps =>
          value := DirRead(img, buf, base, nbytes, U32(entry.position));
          StoredBehindBlanks(b, buf[..], base, Passed(img, entry, nbytes));
        case FileOps =>
          value := FileRead(img, entry.inode, buf, base, nbytes, U32(entry.position));
          StoredBehindBlanks(b, buf[..], base, Passed(img, entry, nbytes));
      }
    }

    method Read(img: Image, fd: int, buf: array<byte>, base: nat, nbytes: int, other: int) returns (r: int)
      requires Valid() && WellFormed(img) && base <= buf.Length
      requires 0 <= fd < MAX_OPEN_FILES ==> Readable(img, fileArray[fd], nbytes, buf[..], base)
      modifies fileArray, buf
      ensures (fileArray[..], r) == ReadStep(img, old(fileArray[..]), fd, nbytes, other)
      ensures var data := if 0 <= fd < MAX_OPEN_FILES then Passed(img, old(fileArray[fd]), nbytes) else [];
        base + |data| <= buf.Length && buf[base..base + |data|] == data
        && (forall i :: 0 <= i < buf.Length && !(base <= i < base + NAME_SIZE) && !(base <= i < base + |data|) ==>
              buf[i] == old(buf[i]))
        && (0 <= fd < MAX_OPEN_FILES && 0 <= nbytes < TWO31 && Plain(img, old(fileArray[fd])) ==> r == |data|)
    {
      if fd < 0 || fd >= MAX_OPEN_FILES {
        return FAILURE;
      }
      var entry := fileArray[fd];
      var value := ReadEntry(img, entry, buf, base, nbytes, other);
      fileArray[fd] := Advanced(entry, value);
      if entry.flags == 0 && value == 1 {
        return FAILURE;
      }
      PlainReturnsItsCount(img, entry, nbytes, other);
      r := value;
    }

    method Close(fd: int) returns (r: int)
      requires Valid()
      modifies fileArray
      ensures (fileArray[..], r) == CloseStep(old(fileArray[..]), fd)
    {
      if fd < 0 || fd >= MAX_OPEN_FILES {
        return FAILURE;
      }
      if fileArray[fd].flags == 0 {
        return FAILURE;
      }
      r := CloseValue(fileArray[fd]);
      fileArray[fd] := fileArray[fd].(inode := 0, fileType := -1, position := 0, flags := 0);
    }
  }
}
