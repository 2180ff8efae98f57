/** The read-only file system: an image of directory entries, inodes and data blocks. */
module FileSystem {
  import opened Bytes

  const NAME_SIZE: int := 32
  const BLOCK_SIZE: int := 4096
  const NUM_DENTRIES: int := 63
  const BLOCKS_PER_INODE: int := 1023
  const FAILURE: int := -1

  datatype Inode = Inode(length: nat, blocks: seq<nat>)

  datatype Dentry = Dentry(name: seq<byte>, fileType: byte, inode: nat)

  datatype Image = Image(dentries: seq<Dentry>, inodes: seq<Inode>, blocks: seq<seq<byte>>)

  ghost predicate GoodInode(img: Image, ino: Inode) {
    && |ino.blocks| == BLOCKS_PER_INODE && ino.length <= BLOCKS_PER_INODE * BLOCK_SIZE
    && forall k :: 0 <= k < BLOCKS_PER_INODE && k * BLOCK_SIZE < ino.length ==> ino.blocks[k] < |img.blocks|
  }

  ghost predicate WellFormed(img: Image) {
    && |img.dentries| == NUM_DENTRIES
    && (forall i :: 0 <= i < NUM_DENTRIES ==> |img.dentries[i].name| == NAME_SIZE && img.dentries[i].fileType <= 2)
    && (forall i :: 0 <= i < |img.inodes| ==> GoodInode(img, img.inodes[i]))
    && (forall i :: 0 <= i < |img.blocks| ==> |img.blocks[i]| == BLOCK_SIZE)
  }

  // ---------- file contents ----------

  /** The first n data blocks of an inode, one after the other. */
  ghost function Joined(img: Image, ino: Inode, n: nat): (s: seq<byte>)
    requires WellFormed(img) && GoodInode(img, ino) && n <= BLOCKS_PER_INODE
    requires n > 0 ==> (n - 1) * BLOCK_SIZE < ino.length
    ensures |s| == n * BLOCK_SIZE
  {
    if n == 0 then [] else Joined(img, ino, n - 1) + img.blocks[ino.blocks[n - 1]]
  }

  /** A file: its blocks joined, cut to its length. */
  ghost function Contents(img: Image, ino: Inode): (s: seq<byte>)
    requires WellFormed(img) && GoodInode(img, ino)
    ensures |s| == ino.length
  {
    Joined(img, ino, (ino.length + BLOCK_SIZE - 1) / BLOCK_SIZE)[..ino.length]
  }

  lemma {:induction false} JoinedAt(img: Image, ino: Inode, n: nat, k: nat)
    requires WellFormed(img) && GoodInode(img, ino) && n <= BLOCKS_PER_INODE
    requires n > 0 ==> (n - 1) * BLOCK_SIZE < ino.length
    requires k < n * BLOCK_SIZE
    ensures 0 <= k / BLOCK_SIZE < BLOCKS_PER_INODE && ino.blocks[k / BLOCK_SIZE] < |img.blocks|
    ensures Joined(img, ino, n)[k] == img.blocks[ino.blocks[k / BLOCK_SIZE]][k % BLOCK_SIZE]
  {
    if k < (n - 1) * BLOCK_SIZE {
      JoinedAt(img, ino, n - 1, k);
    } else {
      assert k / BLOCK_SIZE == n - 1;
    }
  }

  /** A file's bytes lie in 4096-byte blocks, in the order of the inode's table of 1023. */
  lemma ContentsAt(img: Image, ino: Inode, k: nat)
    requires WellFormed(img) && GoodInode(img, ino) && k < ino.length
    ensures 0 <= k / 4096 < 1023 == |ino.blocks| && ino.blocks[k / 4096] < |img.blocks|
    ensures Contents(img, ino)[k] == img.blocks[ino.blocks[k / 4096]][k % 4096]
  {
    JoinedAt(img, ino, (ino.length + BLOCK_SIZE - 1) / BLOCK_SIZE, k);
  }

  /** The pointer read_data computes for block number k: for k past the inode's table it is made
      from whatever word follows, here 0, and never followed. */
  function BlockPointer(ino: Inode, k: nat): nat {
    if k < |ino.blocks| then ino.blocks[k] else 0
  }

  /** The count read_data returns, as a uint32_t. The sum wraps. */
  function Count(size: nat, offset: uint32, length: uint32): uint32
    requires offset <= size < TWO31
  {
    if U32(offset + length) > size then size - offset else length
  }

  /** How many bytes read_data stores. */
  function Stored(size: nat, offset: uint32, length: uint32): nat
    requires offset <= size < TWO31
  {
    if offset + length >= TWO32 then 0 else Min(length, size - offset)
  }

  /** The stored count is the returned count exactly when the sum does not wrap or asks for nothing. */
  lemma CountIsStoredIff(size: nat, offset: uint32, length: uint32)
    requires offset <= size < TWO31
    ensures Count(size, offset, length) == Stored(size, offset, length) <==> offset + length < TWO32
  {
  }

  /** The counting of a read whose count is not negative. */
  lemma PlainCount(size: nat, pos: nat, nbytes: int)
    requires pos <= size <= BLOCKS_PER_INODE * BLOCK_SIZE && 0 <= nbytes < TWO31
    ensures U32(pos) == pos && U32(nbytes) == nbytes
    ensures Stored(size, pos, nbytes) == Count(size, pos, nbytes) == Min(nbytes, size - pos)
    ensures I32(Count(size, pos, nbytes)) == Min(nbytes, size - pos)
        && I32(pos + Min(nbytes, size - pos)) == pos + Min(nbytes, size - pos)
  {
  }

  /** What read_data makes of a buffer, and its result. */
  ghost function ReadEffect(img: Image, inode: nat, offset: uint32, length: uint32, b: seq<byte>,
      base: nat): (seq<byte>, int)
    requires WellFormed(img) && Fits(img, inode, offset, length, b, base)
  {
    if inode >= |img.inodes| || offset > img.inodes[inode].length then (b, FAILURE)
    else
      var ino := img.inodes[inode];
      var n := Stored(ino.length, offset, length);
      (b[..base] + Contents(img, ino)[offset..offset + n] + b[base + n..], I32(Count(ino.length, offset, length)))
  }

  /** The buffer has room, from base on, for what is stored. */
  ghost predicate Fits(img: Image, inode: nat, offset: uint32, length: uint32, b: seq<byte>, base: nat)
    requires WellFormed(img)
  {
    base <= |b| &&
    (inode < |img.inodes| && offset <= img.inodes[inode].length ==>
      base + Stored(img.inodes[inode].length, offset, length) <= |b|)
  }

  method ReadData(img: Image, inode: nat, offset: uint32, buf: array<byte>, base: nat, length: uint32) returns (r: int)
    requires WellFormed(img) && Fits(img, inode, offset, length, buf[..], base)
    modifies buf
    ensures (buf[..], r) == ReadEffect(img, inode, offset, length, old(buf[..]), base)
  {
    if inode >= |img.inodes| {
      return FAILURE;
    }
    var ino := img.inodes[inode];
    if offset > ino.length {
      return FAILURE;
    }
    var numBytes := if U32(offset + length) > ino.length then ino.length - offset else length;
    var last := U32(offset + numBytes);
    ghost var n := Stored(ino.length, offset, length);
    assert last <= ino.length && n == if offset < last then last - offset else 0;
    CopyBlocks(img, ino, offset, last, buf, base);
    r := I32(numBytes);
  }

  /** The copying loop of read_data, from file byte `offset` up to `last`. */
  method CopyBlocks(img: Image, ino: Inode, offset: nat, last: nat, buf: array<byte>, base: nat)
    requires WellFormed(img) && GoodInode(img, ino) && offset <= ino.length && last <= ino.length
    requires base <= buf.Length && (offset < last ==> base + (last - offset) <= buf.Length)
    modifies buf
    ensures var n := if offset < last then last - offset else 0;
      buf[..] == old(buf[..base]) + Contents(img, ino)[offset..offset + n] + old(buf[base + n..])
  {
    var dataBlock := BlockPointer(ino, offset / BLOCK_SIZE);
    ghost var file := Contents(img, ino);
    var i := offset;
    while i < last
      invariant offset <= i && (i <= last || i == offset)
      invariant i % BLOCK_SIZE != 0 ==> dataBlock == BlockPointer(ino, i / BLOCK_SIZE)
      invariant forall k :: 0 <= k < buf.Length ==>
        buf[k] == if base <= k < base + (i - offset) then file[offset + (k - base)] else old(buf[k])
    {
      if i % BLOCK_SIZE == 0 {
        dataBlock := BlockPointer(ino, i / BLOCK_SIZE);
      }
      ContentsAt(img, ino, i);
      buf[base + (i - offset)] := img.blocks[dataBlock][i % BLOCK_SIZE];
      SameBlock(i);
      i := i + 1;
    }
  }

  /** Two neighbouring bytes lie in one block unless the second starts a block. */
  lemma SameBlock(i: nat)
    ensures (i + 1) % BLOCK_SIZE != 0 ==> (i + 1) / BLOCK_SIZE == i / BLOCK_SIZE
  {
  }

  // ---------- file_read and load_program ----------

  /** n bytes at base blanked. */
  function Blanked(b: seq<byte>, base: nat, n: nat): (r: seq<byte>)
    requires base + n <= |b|
    ensures |r| == |b| && forall k :: 0 <= k < |b| ==> r[k] == if base <= k < base + n then 0 else b[k]
  {
    b[..base] + Zeros(n) + b[base + n..]
  }

  /** The caller's buffer after file_read and dir_read blank its leading non-NUL bytes, at most 32. */
  function Cleared(b: seq<byte>, base: nat): (r: seq<byte>)
    requires base <= |b|
    ensures |r| == |b|
  {
    Blanked(b, base, LengthBeforeNul(b, base, NAME_SIZE))
  }

  /** Exactly the bytes of the first 32 that no NUL precedes are blanked. */
  lemma ClearedAt(b: seq<byte>, base: nat, i: nat)
    requires base <= |b| && i < |b|
    ensures Cleared(b, base)[i] == if base <= i < base + 32 && 0 !in b[base..i] then 0 else b[i]
  {
    var n := LengthBeforeNul(b, base, NAME_SIZE);
    if base <= i {
      assert 0 in b[base..i] <==> exists k :: base <= k < i && b[k] == 0 by {
        assert forall k :: base <= k < i ==> b[base..i][k - base] == b[k];
      }
    }
  }

  /** The buffer holds 32 bytes from base on, or a NUL. */
  ghost predicate Clearable(b: seq<byte>, base: nat) {
    base + NAME_SIZE <= |b| || (base <= |b| && 0 in b[base..])
  }

  /** Blanking stays inside the buffer, whatever lies behind it in memory, exactly when the buffer is
      long enough or holds a NUL. */
  lemma BlankingStaysInsideIff(b: seq<byte>, base: nat)
    requires base <= |b|
    ensures (forall beyond: seq<byte> :: Cleared(b + beyond, base)[|b|..] == beyond) <==> Clearable(b, base)
  {
    if Clearable(b, base) {
      forall beyond: seq<byte>
        ensures Cleared(b + beyond, base)[|b|..] == beyond
      {
        BlankingStops(b, beyond, base);
      }
    } else {
      BlankingRunsOver(b, base);
    }
  }

  lemma BlankingStops(b: seq<byte>, beyond: seq<byte>, base: nat)
    requires Clearable(b, base)
    ensures Cleared(b + beyond, base)[|b|..] == beyond
  {
    var m := b + beyond;
    var n := LengthBeforeNul(m, base, NAME_SIZE);
    if base + NAME_SIZE > |b| {
      var k :| 0 <= k < |b| - base && b[base..][k] == 0;
      assert m[base + k] == 0;
    }
    assert Cleared(m, base)[|b|..] == m[|b|..];
  }

  lemma BlankingRunsOver(b: seq<byte>, base: nat)
    requires base <= |b| && !Clearable(b, base)
    ensures Cleared(b + [1], base)[|b|..] != [1]
  {
    var m := b + [1];
    var n := LengthBeforeNul(m, base, NAME_SIZE);
    assert m[|b|] == 1;
    assert forall k :: base <= k < |b| ==> m[k] == b[base..][k - base];
    assert n == |m| - base;
    assert Cleared(m, base)[|b|] == 0;
  }

  /** Where the blanking loop stops: at byte 32, or at a NUL before it. */
  lemma BlankingEnds(b: seq<byte>, base: nat) returns (n: nat)
    requires Clearable(b, base)
    ensures n <= NAME_SIZE && base + n <= |b| && Cleared(b, base) == Blanked(b, base, n)
    ensures n == NAME_SIZE || (base + n < |b| && b[base + n] == 0)
    ensures forall k :: base <= k < base + n ==> b[k] != 0
  {
    n := LengthBeforeNul(b, base, NAME_SIZE);
    if base + NAME_SIZE > |b| {
      var k :| 0 <= k < |b| - base && b[base..][k] == 0;
      assert b[base + k] == 0;
    }
  }

  method ClearBuffer(buf: array<byte>, base: nat)
    requires Clearable(buf[..], base)
    modifies buf
    ensures buf[..] == Cleared(old(buf[..]), base)
  {
    ghost var n := BlankingEnds(buf[..], base);
    var i := 0;
    // The source looks at byte 32 before it compares i; either value of it stops the loop there.
    while i < NAME_SIZE && buf[base + i] != 0
      invariant 0 <= i <= n
      invariant forall k :: base <= k < base + i ==> buf[k] == 0
      invariant forall k :: 0 <= k < buf.Length && !(base <= k < base + i) ==> buf[k] == old(buf[k])
      decreases NAME_SIZE - i
    {
      buf[base + i] := 0;
      i := i + 1;
    }
    assert buf[..] == Blanked(old(buf[..]), base, n);
  }

  method FileRead(img: Image, inode: nat, buf: array<byte>, base: nat, nbytes: int, offset: uint32) returns (r: int)
    requires Clearable(buf[..], base)
    requires WellFormed(img) && Fits(img, inode, offset, U32(nbytes), buf[..], base)
    modifies buf
    ensures (buf[..], r) == ReadEffect(img, inode, offset, U32(nbytes), Cleared(old(buf[..]), base), base)
  {
    ClearBuffer(buf, base);
    r := ReadData(img, inode, offset, buf, base, U32(nbytes));
  }

  /** load_program on an inode of the image: it always succeeds, and leaves the whole program. */
  method LoadProgram(img: Image, inode: nat, memory: array<byte>) returns (r: int)
    requires WellFormed(img) && inode < |img.inodes|
    requires memory.Length >= NAME_SIZE && memory.Length >= img.inodes[inode].length
    modifies memory
    ensures r == 0
    ensures memory[..img.inodes[inode].length] == Contents(img, img.inodes[inode])
  {
    var length := img.inodes[inode].length;
    var n := FileRead(img, inode, memory, 0, length, 0);
    WholeFile(img, inode, Cleared(old(memory[..]), 0));
    r := if n != length then -1 else 0;
  }

  /** Reading a file's whole length from its start delivers the file and reports its length. */
  lemma WholeFile(img: Image, inode: nat, b: seq<byte>)
    requires WellFormed(img) && inode < |img.inodes| && |b| >= img.inodes[inode].length
    ensures var length := img.inodes[inode].length;
      Fits(img, inode, 0, length, b, 0)
      && ReadEffect(img, inode, 0, length, b, 0).0[..length] == Contents(img, img.inodes[inode])
      && ReadEffect(img, inode, 0, length, b, 0).1 == length
  {
  }
}
