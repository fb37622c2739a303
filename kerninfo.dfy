/** `mon_kerninfo`: the linker symbols of the kernel image, their physical
    addresses, and the image's memory footprint. */
module KernInfo {
  import opened Mmu
  import opened Console

  /** The linker-defined symbols `_start`, `entry`, `etext`, `edata` and `end`. */
  datatype LinkSymbols = LinkSymbols(start: Uint32, entry: Uint32, etext: Uint32, edata: Uint32, end: Uint32)

  /** `va - KERNBASE` on a 32-bit pointer: the physical address a kernel virtual
      address is loaded at. Below KERNBASE the subtraction wraps. */
  function Phys(va: Uint32): (pa: Uint32)
    ensures (pa + KERNBASE) % ADDRESS_SPACE == va
    ensures va >= KERNBASE ==> pa == va - KERNBASE
    ensures va < KERNBASE ==> pa == va + ADDRESS_SPACE - KERNBASE
  {
    (va + ADDRESS_SPACE - KERNBASE) % ADDRESS_SPACE
  }

  /** C's `/` on `int`: the quotient truncated toward zero. */
  function DivTrunc(a: int, d: nat): int
    requires d > 0
  {
    if a >= 0 then a / d else -((-a) / d)
  }

  /** `ROUNDUP(end - entry, 1024) / 1024`. The pointer difference is a 32-bit
      `ptrdiff_t`; the JOS `ROUNDUP` macro (inc/types.h) adds 1023 and rounds
      down in `uint32_t`, then casts back to `ptrdiff_t`; the division is C's. */
  function FootprintKB(entry: Uint32, end: Uint32): (kb: int)
    ensures -0x20_0000 <= kb < 0x20_0000
  {
    var diff := (end + ADDRESS_SPACE - entry) % ADDRESS_SPACE;
    var up := (diff + 1023) % ADDRESS_SPACE;
    var rounded := up - up % 1024;
    DivTrunc(Signed32(rounded), 1024)
  }

  /** For an image that starts at `entry`, ends at `end` and is at most
      2 GiB - 1 KiB (0x7FFFFC00 bytes), the footprint is its size in KB
      rounded up. */
  lemma FootprintIsCeiling(entry: Uint32, end: Uint32)
    requires entry <= end && end - entry <= 0x7FFF_FC00
    ensures var kb := FootprintKB(entry, end);
      kb >= 0 && (kb - 1) * 1024 < end - entry <= kb * 1024
  {
    var d := end - entry;
    assert (end + ADDRESS_SPACE - entry) % ADDRESS_SPACE == d;
    assert (d + 1023) % ADDRESS_SPACE == d + 1023;
    var rounded := (d + 1023) - (d + 1023) % 1024;
    assert Signed32(rounded) == rounded;
    assert DivTrunc(rounded, 1024) == (d + 1023) / 1024;
  }

  /** One byte more and the rounded size reaches 2^31 in `uint32_t`, which the
      cast to `ptrdiff_t` turns into INT_MIN: the footprint printed is
      negative. */
  lemma FootprintOverflows()
    ensures FootprintKB(0, 0x7FFF_FC00) == 0x1F_FFFF
    ensures FootprintKB(0, 0x7FFF_FC01) == -0x20_0000
  {
    assert Signed32(0x7FFF_FC00) == 0x7FFF_FC00;
    assert DivTrunc(0x7FFF_FC00, 1024) == 0x1F_FFFF;
    assert Signed32(0x8000_0000) == -0x8000_0000;
    assert DivTrunc(-0x8000_0000, 1024) == -0x20_0000;
  }

  /** A 128 KB image linked at 0xf0100000. */
  lemma FootprintExample()
    ensures FootprintKB(0xF010_0000, 0xF012_0000) == 128
    ensures FootprintKB(0xF010_0000, 0xF012_0001) == 129
  {
  }

  /** `mon_kerninfo`: `_start` printed as it is, each of `entry`, `etext`,
      `edata`, `end` with a physical address that KERNBASE maps back to it, and
      the footprint. */
  function KernInfo(syms: LinkSymbols): (out: seq<Line>)
    ensures |out| == 7 && out[0] == SpecialSymbols && out[1] == SymbolPhys("_start", syms.start)
    ensures forall i :: 2 <= i < 6 ==>
      out[i].SymbolVirtPhys? && (out[i].phys + KERNBASE) % ADDRESS_SPACE == out[i].virt
    ensures out[2].virt == syms.entry && out[3].virt == syms.etext
    ensures out[4].virt == syms.edata && out[5].virt == syms.end
    ensures out[6] == Footprint(FootprintKB(syms.entry, syms.end))
  {
    [ SpecialSymbols,
      SymbolPhys("_start", syms.start),
      SymbolVirtPhys("entry", syms.entry, Phys(syms.entry)),
      SymbolVirtPhys("etext", syms.etext, Phys(syms.etext)),
      SymbolVirtPhys("edata", syms.edata, Phys(syms.edata)),
      SymbolVirtPhys("end", syms.end, Phys(syms.end)),
      Footprint(FootprintKB(syms.entry, syms.end)) ]
  }
}
