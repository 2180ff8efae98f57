/** execute's checks on a command's file, and why they keep the user mapping right. */
module Loader {
  import opened Bytes
  import opened FileSystem
  import opened Directory
  import opened Layout
  import opened Processes
  import opened Scheduling

  const BUFSIZE: int := 4
  const ELF_MAGIC: seq<byte> := [0x7f, 0x45, 0x4c, 0x46]

  /** What execute finds behind a file name. `stack` is the memory at its header buffer, `stray` the
      word that stands where a file length would if the entry's inode number is out of range. */
  ghost function Classify(img: Image, fname: seq<byte>, stack: seq<byte>, stray: uint32): Loading
    requires WellFormed(img) && |stack| >= NAME_SIZE
  {
    match Lookup(img, fname)
    case None => NotExecutable
    case Some(d) =>
      var (buf, r) := ReadEffect(img, d.inode, 0, BUFSIZE, Cleared(stack, 0), 0);
      if r == 0 || CString(buf, BUFSIZE) != ELF_MAGIC then NotExecutable
      else if d.inode < |img.inodes| then Loads
      else if stray == U32(FAILURE) then Loads
      else LoadFails
  }

  method Check(img: Image, fname: seq<byte>, stack: array<byte>, memory: array<byte>, stray: uint32)
      returns (l: Loading)
    requires WellFormed(img) && 0 !in fname && stack.Length >= NAME_SIZE && stack != memory
    requires memory.Length >= NAME_SIZE && forall i :: 0 <= i < |img.inodes| ==> memory.Length >= img.inodes[i].length
    modifies stack, memory
    ensures l == Classify(img, fname, old(stack[..]), stray)
    ensures l == Loads ==>
      Lookup(img, fname).Some? && Lookup(img, fname).value.inode < |img.inodes|
      && var ino := img.inodes[Lookup(img, fname).value.inode]; memory[..ino.length] == Contents(img, ino)
  {
    var dentry := ReadDentryByName(img, fname);
    LookupMeaning(img, fname);
    if dentry == None {
      return NotExecutable;
    }
    var inode := dentry.value.inode;
    HeaderMeansLoads(img, fname, stack[..], stray);
    var r := FileRead(img, inode, stack, 0, BUFSIZE, 0);
    if r == 0 {
      return NotExecutable;
    }
    var c := Strncmp(stack[..], ELF_MAGIC, BUFSIZE);
    CStringIs(ELF_MAGIC, BUFSIZE, ELF_MAGIC);
    if c != 0 {
      return NotExecutable;
    }
    if inode < |img.inodes| {
      var loaded := LoadProgram(img, inode, memory);
      l := if loaded != 0 then LoadFails else Loads;
    } else {
      // file_read fails here and load_program compares its result with the stray length
      l := if stray == U32(FAILURE) then Loads else LoadFails;
    }
  }

  /** What passes the header check loads: when nothing can be read, the blanked header buffer is an
      empty string. */
  lemma HeaderMeansLoads(img: Image, fname: seq<byte>, stack: seq<byte>, stray: uint32)
    requires WellFormed(img) && |stack| >= NAME_SIZE
    ensures Classify(img, fname, stack, stray) != LoadFails
    ensures Classify(img, fname, stack, stray) == Loads ==> Lookup(img, fname).value.inode < |img.inodes|
  {
    BlankedIsEmpty(stack);
  }

  lemma BlankedIsEmpty(stack: seq<byte>)
    requires |stack| >= NAME_SIZE
    ensures Cleared(stack, 0)[0] == 0 && CString(Cleared(stack, 0), BUFSIZE) == []
  {
  }

  /** Exactly what is executed: a file that begins with the ELF magic number, or one of 1 to 3 bytes
      that the memory at the header buffer happens to complete to it. */
  lemma LoadsIffElf(img: Image, fname: seq<byte>, stack: seq<byte>, stray: uint32)
    requires WellFormed(img) && |stack| >= NAME_SIZE
    ensures Classify(img, fname, stack, stray) == Loads <==>
      Lookup(img, fname).Some? && Lookup(img, fname).value.inode < |img.inodes|
      && var file := Contents(img, img.inodes[Lookup(img, fname).value.inode]);
         var n := Min(4, |file|);
         n > 0 && file[..n] + Cleared(stack, 0)[n..4] == [0x7f, 0x45, 0x4c, 0x46]
  {
    hide Contents, CString, Cleared, LookupFrom;
    HeaderMeansLoads(img, fname, stack, stray);
    if Lookup(img, fname).Some? && Lookup(img, fname).value.inode < |img.inodes| {
      var ino := img.inodes[Lookup(img, fname).value.inode];
      var file, b := Contents(img, ino), Cleared(stack, 0);
      var n := Min(BUFSIZE, |file|);
      PlainCount(|file|, 0, BUFSIZE);
      HeaderIs(file[0..n] + b[n..]);
      CompletedHeader(file, b, n);
      assert b[..0] + file[0..n] + b[0 + n..] == file[0..n] + b[n..];
    }
  }

  lemma HeaderIs(buf: seq<byte>)
    requires |buf| >= BUFSIZE
    ensures CString(buf, BUFSIZE) == ELF_MAGIC <==> buf[..BUFSIZE] == ELF_MAGIC
  {
    if buf[..BUFSIZE] == ELF_MAGIC {
      CStringIs(buf, BUFSIZE, ELF_MAGIC);
    } else {
      assert CString(buf, BUFSIZE) <= buf[..BUFSIZE];
    }
  }

  lemma CompletedHeader(file: seq<byte>, b: seq<byte>, n: nat)
    requires n <= |file| && n <= BUFSIZE <= |b|
    ensures (file[0..n] + b[n..])[..BUFSIZE] == ELF_MAGIC <==> file[..n] + b[n..4] == [0x7f, 0x45, 0x4c, 0x46]
  {
    assert (file[0..n] + b[n..])[..BUFSIZE] == file[..n] + b[n..BUFSIZE];
  }

  /** A three-byte file that is executed: the fourth byte of the header comes from the stack. */
  lemma ShortFileCanLoad()
    ensures exists img, fname, stack ::
      && WellFormed(img) && |stack| >= NAME_SIZE && Lookup(img, fname).Some?
      && Lookup(img, fname).value.inode < |img.inodes| && img.inodes[Lookup(img, fname).value.inode].length == 3
      && Classify(img, fname, stack, 0) == Loads
  {
    var fname: seq<byte> := [97];
    var stack := [0, 0, 0] + ELF_MAGIC[3..] + Zeros(NAME_SIZE);
    var img := ShortImage();
    assert Cleared(stack, 0) == stack by {
      assert LengthBeforeNul(stack, 0, NAME_SIZE) == 0;
    }
    ShortLookup(fname);
    ShortContents();
    LoadsIffElf(img, fname, stack, 0);
  }

  /** One inode of three bytes, under the name "a" in every entry. */
  ghost function ShortImage(): (img: Image)
    ensures WellFormed(img)
  {
    Image(seq(NUM_DENTRIES, _ => Dentry([97] + Zeros(31), 2, 0)), [Inode(3, seq(BLOCKS_PER_INODE, _ => 0))],
          [ELF_MAGIC + Zeros(BLOCK_SIZE - 4)])
  }

  lemma ShortLookup(fname: seq<byte>)
    requires fname == [97]
    ensures Lookup(ShortImage(), fname).Some? && Lookup(ShortImage(), fname).value.inode == 0
  {
    var entry := Dentry([97] + Zeros(31), 2, 0);
    assert ShortImage().dentries[0] == entry;
    CStringIs(entry.name, NAME_SIZE, fname);
    assert LookupFrom(ShortImage(), Key(fname), 0) == Some(entry);
  }

  lemma ShortContents()
    ensures Contents(ShortImage(), ShortImage().inodes[0]) == ELF_MAGIC[..3]
  {
    var ino := ShortImage().inodes[0];
    ContentsAt(ShortImage(), ino, 0);
    ContentsAt(ShortImage(), ino, 1);
    ContentsAt(ShortImage(), ino, 2);
  }

  /** No execute leaves the user page at another process's frame. */
  lemma ExecuteKeepsTheMapping(s: KState, a: Procs, depth: Depth, img: Image, fname: seq<byte>, stack: seq<byte>,
      stray: uint32)
    requires Represents(s, a) && PageAgrees(s) && WellFormed(img) && |stack| >= NAME_SIZE
    ensures CanExec(s, depth) && Shape(ExecStep(s, depth, Classify(img, fname, stack, stray)))
    ensures PageAgrees(ExecStep(s, depth, Classify(img, fname, stack, stray)))
  {
    HeaderMeansLoads(img, fname, stack, stray);
    ExecRefines(s, a, depth, Classify(img, fname, stack, stray));
  }

  /** Every execute of a run asks for a file of the image. */
  ghost predicate FromImage(img: Image, es: seq<Event>)
    requires WellFormed(img)
  {
    forall i :: 0 <= i < |es| && es[i].Exec? ==>
      exists fname, stack, stray :: |stack| >= NAME_SIZE && es[i].image == Classify(img, fname, stack, stray)
  }

  /** In every run on a well-formed image the user page entry, esp0 and the active process of the
      running terminal name one pid: no program fails to load behind its header. */
  lemma MachineAgreesOnImage(img: Image, memory: seq<Pcb>, es: seq<Event>)
    requires WellFormed(img) && |memory| == MAX_OPEN_PROCESSES && FromImage(img, es)
    ensures var s := Run(memory, es); s.page == PageEntry(s.top[s.curr]) && s.esp0 == KernelStackTop(s.top[s.curr])
  {
    forall i | 0 <= i < |es| && es[i].Exec?
      ensures es[i].image != LoadFails
    {
      var fname, stack, stray :| |stack| >= NAME_SIZE && es[i].image == Classify(img, fname, stack, stray);
      HeaderMeansLoads(img, fname, stack, stray);
    }
    MachineAgrees(memory, es);
  }
}
