/** The kernel's fixed memory layout: where each process's control block, kernel stack
    and user frame lie, and how a stack pointer is turned back into a control block. */
module Layout {
  const K_MEM_END: int := 0x800000
  const K_STACK_SIZE: int := 0x2000
  const WORD_SIZE: int := 4
  const FOUR_MB: int := 0x400000
  const MAX_OPEN_PROCESSES: int := 6
  const NUM_TERMINALS: int := 3

  // The user page is directory entry 32, so it covers 128 MB up to 132 MB.
  const USER_PAGE_START: int := 0x8000000
  // PDE_PS | PDE_US | PDE_RW | PDE_P
  const USER_PAGE_FLAGS: int := 0x87

  type Pid = p: int | 0 <= p < MAX_OPEN_PROCESSES witness 0

  function PcbAddress(pid: int): int {
    K_MEM_END - (pid + 1) * K_STACK_SIZE
  }

  /** The value of tss.esp0 while `pid` is the scheduled process. */
  function KernelStackTop(pid: int): int {
    K_MEM_END - pid * K_STACK_SIZE - WORD_SIZE
  }

  /** `esp & PCB_BITMASK`; see MaskClearsLowBits for the bitwise reading. */
  function MaskToPcb(esp: int): int {
    esp - esp % K_STACK_SIZE
  }

  /** Which control block lies at an address. */
  function PcbIndex(address: int): int {
    (K_MEM_END - address) / K_STACK_SIZE - 1
  }

  /** The page-directory entry that change_process installs. */
  function PageEntry(pid: int): int {
    (pid + 2) * FOUR_MB + USER_PAGE_FLAGS
  }

  /** The physical address that a user-page virtual address reaches through `entry`. */
  function Translate(entry: int, virtual: int): int {
    entry - entry % FOUR_MB + (virtual - USER_PAGE_START)
  }

  lemma MaskClearsLowBits(esp: bv32)
    ensures esp & 0xFFFFE000 == esp - esp % 0x2000
  {
  }

  /** The kernel's addresses and entries, in numbers. */
  lemma LayoutInNumbers(pid: Pid, esp: int)
    ensures KernelStackTop(pid) == 0x7FFFFC - 0x2000 * pid
    ensures PcbAddress(pid) == 0x7FE000 - 0x2000 * pid
    ensures MaskToPcb(esp) == esp - esp % 0x2000
    ensures PageEntry(pid) == (pid + 2) * 0x400000 + 0x87
  {
  }

  /** The or of a frame's address with the size, user, write and present bits is that number. */
  lemma PageEntryIsBitwiseOr(pid: bv32)
    requires pid < 6
    ensures ((pid + 2) * 0x1000 * 0x400) | 0x80 | 0x4 | 0x2 | 0x1 == (pid + 2) * 0x400000 + 0x87
  {
  }

  /** The masked stack pointer is the control block of `pid` exactly when the pointer lies in
      the 8 KB that start at that control block, and that block is then number `pid`. */
  lemma MaskFindsPcb(pid: Pid, esp: int)
    ensures MaskToPcb(esp) == PcbAddress(pid) <==> PcbAddress(pid) <= esp < PcbAddress(pid) + K_STACK_SIZE
    ensures PcbIndex(PcbAddress(pid)) == pid
  {
    var q := esp / K_STACK_SIZE;
    assert esp == q * K_STACK_SIZE + esp % K_STACK_SIZE;
    assert PcbAddress(pid) == (1023 - pid) * K_STACK_SIZE;
  }

  /** However deep a system call's frames are, within the 8 KB stack that starts at esp0, the
      mask finds the control block of the process that esp0 belongs to. */
  lemma SystemCallFindsItsPcb(pid: Pid, depth: nat)
    requires depth <= K_STACK_SIZE - WORD_SIZE
    ensures PcbIndex(MaskToPcb(KernelStackTop(pid) - depth)) == pid
  {
    MaskFindsPcb(pid, KernelStackTop(pid) - depth);
  }

  /** Two user addresses, through two processes' page entries, never meet; and no user address
      reaches the kernel page or anything below it. */
  lemma FramesAreDisjoint(p: Pid, q: Pid, v: int, w: int)
    requires USER_PAGE_START <= v < USER_PAGE_START + FOUR_MB
    requires USER_PAGE_START <= w < USER_PAGE_START + FOUR_MB
    ensures Translate(PageEntry(p), v) >= K_MEM_END
    ensures Translate(PageEntry(p), v) == Translate(PageEntry(q), w) ==> p == q && v == w
  {
    EntryBase(p);
    EntryBase(q);
  }

  lemma EntryBase(p: Pid)
    ensures PageEntry(p) - PageEntry(p) % FOUR_MB == (p + 2) * FOUR_MB
  {
    assert PageEntry(p) == (p + 2) * FOUR_MB + USER_PAGE_FLAGS;
    assert PageEntry(p) % FOUR_MB == USER_PAGE_FLAGS;
  }
}
