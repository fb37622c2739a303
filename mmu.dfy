/** The parts of 32-bit x86 paging the monitor touches: the machine word, the
    PTE flag bits (Intel SDM Vol. 3A, section 4.3, Table 4-6), the page size,
    the kernel base, and the page-table accessor `pgdir_walk` with its
    create-if-missing flag clear. */
module Mmu {
  import opened Wrappers

  /** A 32-bit machine word: a stack word, a page-table entry or an address
      whose bits the code inspects. */
  type Word = bv32

  /** Virtual addresses (`uintptr_t`) are integers below ADDRESS_SPACE. */
  const ADDRESS_SPACE: nat := 0x1_0000_0000

  /** A `uint32_t` read as an integer: a stack word, a saved register, a
      linker symbol's address. */
  type Uint32 = n: nat | n < ADDRESS_SPACE

  /** A `uint32_t` reinterpreted as a 32-bit two's complement `int`. */
  function Signed32(u: Uint32): int {
    if u < 0x8000_0000 then u else u - ADDRESS_SPACE
  }

  const PGSIZE: nat := 4096
  const PTE_P: Word := 0x001
  const PTE_W: Word := 0x002
  const PTE_U: Word := 0x004
  /** The offset between a kernel virtual address and its physical address. */
  const KERNBASE: Uint32 := 0xF000_0000

  predicate HasFlag(pte: Word, flag: Word) {
    pte & flag != 0
  }

  /** PTE_ADDR: the physical frame address held in the high 20 bits of an entry. */
  function PteAddr(pte: Word): Word {
    pte & !0xFFF
  }

  /** The page-aligned address of the page holding `va`. */
  function PageBase(va: nat): nat {
    va - va % PGSIZE
  }

  /** `pgdir_walk(kern_pgdir, va, 0)`. The page directory is a map from
      page-aligned virtual address to leaf entry; a page whose page table does
      not exist has no key, and then the walk returns None (a null pointer). */
  function Walk(entries: map<nat, Word>, va: nat): Option<Word> {
    if PageBase(va) in entries then Some(entries[PageBase(va)]) else None
  }
}
