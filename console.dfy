/** What the monitor prints, as abstract lines carrying the printed values, and
    how a command ends. */
module Console {
  import opened Mmu

  datatype Line =
    | CommandHelp(name: string, desc: string)
    | SpecialSymbols
    | SymbolPhys(symbol: string, phys: Uint32)
    | SymbolVirtPhys(symbol: string, virt: Uint32, phys: Uint32)
    | Footprint(kb: int)
    | BacktraceHeader
    | Frame(ebp: Uint32, eip: Uint32, args: seq<Uint32>)
    | FrameSource(file: string, line: int, fnName: string, offset: int)
    | Usage(text: string)
    | InvalidAddress
    | Mapped(va: nat, pa: Word, p: bool, w: bool, u: bool)
    | NotMapped(va: nat)
    | BeforeSetting
    | AfterSetting
    | TooManyArgs(max: nat)
    | UnknownCommand(name: string)

  /** Why the kernel stopped inside a command. */
  datatype Halt =
    | WalkOutOfMemory       // panic("pgdir_walk out of memory.")
    | NullEntryDereference  // `*entry` on a null walk result faults
    | StackFault            // a frame word read from an unmapped address faults

  datatype Status = Returned(code: int) | Halted(why: Halt)

  /** What a command printed and how it ended. */
  datatype Outcome = Outcome(out: seq<Line>, status: Status)

  /** The report both paging commands print for one entry: the frame address
      and the P/W/U flags when the entry is present, a "doesn't exist" line
      otherwise. */
  function EntryReport(va: nat, pte: Word): (l: Line)
    ensures l.Mapped? ==> l.va == va && l.p
    ensures l.NotMapped? ==> l.va == va
  {
    if HasFlag(pte, PTE_P) then
      Mapped(va, PteAddr(pte), HasFlag(pte, PTE_P), HasFlag(pte, PTE_W), HasFlag(pte, PTE_U))
    else
      NotMapped(va)
  }

  /** What the report of an entry says about its bits: present exactly when P
      is set, and then the address, the page-aligned frame address, which with
      the low twelve bits of the entry makes up the entry, and the W and U
      bits; otherwise "doesn't exist" for the address. */
  lemma EntryReportMeaning(va: nat, pte: Word)
    ensures var l := EntryReport(va, pte);
      && (l.Mapped? <==> HasFlag(pte, PTE_P))
      && (!l.Mapped? ==> l == NotMapped(va))
      && (l.Mapped? ==> l.va == va && l.pa & 0xFFF == 0 && l.pa | (pte & 0xFFF) == pte && l.p)
      && (l.Mapped? ==> (l.w <==> HasFlag(pte, PTE_W)) && (l.u <==> HasFlag(pte, PTE_U)))
  {
  }
}
