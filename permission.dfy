/** `mon_setpermission`: set or clear one of the P/W/U flags of the leaf
    page-table entry of an address, in place. */
module Permission {
  import opened Wrappers
  import opened Mmu
  import opened Console
  import Strtol
  import Tokenizer

  /** `argv[k][0]`: the first character of a C string, NUL for the empty one. */
  function FirstChar(s: string): char {
    if |s| == 0 then Tokenizer.NUL else s[0]
  }

  /** The `switch (perm)`: 'p', 'w' and 'u' select one flag, anything else none. */
  function Mask(perm: char): (m: Word)
    ensures m == 0 || m == PTE_P || m == PTE_W || m == PTE_U
    ensures m != 0 <==> perm == 'p' || perm == 'w' || perm == 'u'
  {
    match perm
    case 'p' => PTE_P
    case 'w' => PTE_W
    case 'u' => PTE_U
    case _ => 0
  }

  /** The `switch (set)` applied to an entry: 's' ORs the mask in, 'c' ANDs its
      complement in. A direction other than 's' or 'c' writes nothing, and an
      unknown permission letter gives an empty mask, which changes no bit. */
  function EditPte(pte: Word, dir: char, perm: char): (e: Word)
    ensures dir != 's' && dir != 'c' ==> e == pte
    ensures Mask(perm) == 0 ==> e == pte
  {
    if dir == 's' then pte | Mask(perm)
    else if dir == 'c' then pte & !Mask(perm)
    else pte
  }

  /** Setting turns the selected flag on and moves no other bit. */
  lemma SetOnlyTouchesFlag(pte: Word, perm: char)
    ensures EditPte(pte, 's', perm) & Mask(perm) == Mask(perm)
    ensures EditPte(pte, 's', perm) & !Mask(perm) == pte & !Mask(perm)
  {
    OrBits(pte, Mask(perm));
  }

  /** Clearing turns the selected flag off and moves no other bit. */
  lemma ClearOnlyTouchesFlag(pte: Word, perm: char)
    ensures EditPte(pte, 'c', perm) & Mask(perm) == 0
    ensures EditPte(pte, 'c', perm) & !Mask(perm) == pte & !Mask(perm)
  {
    AndNotBits(pte, Mask(perm));
  }

  /** Setting a flag that was clear and then clearing it restores the entry
      word exactly. */
  lemma SetThenClearRestores(pte: Word, perm: char)
    requires pte & Mask(perm) == 0
    ensures EditPte(EditPte(pte, 's', perm), 'c', perm) == pte
  {
    OrThenAndNot(pte, Mask(perm));
  }

  /** Clearing the same flag twice is clearing it once; so is setting. */
  lemma EditIdempotent(pte: Word, dir: char, perm: char)
    ensures EditPte(EditPte(pte, dir, perm), dir, perm) == EditPte(pte, dir, perm)
  {
    var m := Mask(perm);
    if dir == 's' {
      OrIdempotent(pte, m);
    } else if dir == 'c' {
      AndNotIdempotent(pte, m);
    }
  }

  lemma OrBits(pte: Word, m: Word)
    ensures (pte | m) & m == m && (pte | m) & !m == pte & !m
  {
  }

  lemma AndNotBits(pte: Word, m: Word)
    ensures (pte & !m) & m == 0 && (pte & !m) & !m == pte & !m
  {
  }

  lemma OrThenAndNot(pte: Word, m: Word)
    requires pte & m == 0
    ensures (pte | m) & !m == pte
  {
  }

  lemma OrIdempotent(pte: Word, m: Word)
    ensures (pte | m) | m == pte | m
  {
  }

  lemma AndNotIdempotent(pte: Word, m: Word)
    ensures (pte & !m) & !m == pte & !m
  {
  }

  /** `setpermission ADDR {s|c} {p|w|u}` (argv[0] is the command name): what
      it prints, how it ends, and the page directory it leaves. It prints the
      entry, edits it in place and prints it again. A walk that finds no page
      table yields a null entry pointer, which is dereferenced unchecked. */
  function SetPermissionSpec(argv: seq<string>, entries: map<nat, Word>): (Outcome, map<nat, Word>) {
    if |argv| != 4 then (Outcome([Usage("setpermission ADDR [s|c] [p|w|u]")], Returned(0)), entries)
    else
      var addr := Strtol.ParseHex(argv[1]);
      match Walk(entries, addr)
      case None => (Outcome([BeforeSetting], Halted(NullEntryDereference)), entries)
      case Some(pte) =>
        var edited := EditPte(pte, FirstChar(argv[2]), FirstChar(argv[3]));
        (Outcome([BeforeSetting, EntryReport(addr, pte), AfterSetting, EntryReport(addr, edited)], Returned(0)),
         entries[PageBase(addr) := edited])
  }

  /** The command writes at most the one entry of the page holding ADDR: every
      other page keeps its entry and no page table appears or disappears; the
      page's entry afterwards is the edited one, and the second report shows
      it. Usage errors and null walks leave the directory alone. */
  lemma SetPermissionWritesOneEntry(argv: seq<string>, entries: map<nat, Word>)
    ensures var (o, after) := SetPermissionSpec(argv, entries);
      && after.Keys == entries.Keys
      && (forall a :: a in entries && (|argv| != 4 || a != PageBase(Strtol.ParseHex(argv[1]))) ==> after[a] == entries[a])
      && (|argv| == 4 && Walk(entries, Strtol.ParseHex(argv[1])).Some? ==>
            var addr := Strtol.ParseHex(argv[1]);
            var edited := EditPte(Walk(entries, addr).value, FirstChar(argv[2]), FirstChar(argv[3]));
            Walk(after, addr) == Some(edited) && o.out[3] == EntryReport(addr, edited))
      && (o.status == Returned(0) || o.status == Halted(NullEntryDereference))
  {
  }

  /** `setpermission ADDR s p` on a page whose table exists leaves the page
      reported present; `setpermission ADDR c p` leaves it reported absent. */
  lemma PresentBitFollowsCommand(argv: seq<string>, entries: map<nat, Word>)
    requires |argv| == 4 && Walk(entries, Strtol.ParseHex(argv[1])).Some?
    requires FirstChar(argv[3]) == 'p'
    requires FirstChar(argv[2]) == 's' || FirstChar(argv[2]) == 'c'
    ensures var (o, _) := SetPermissionSpec(argv, entries);
      o.out[3].Mapped? <==> FirstChar(argv[2]) == 's'
  {
    var pte := Walk(entries, Strtol.ParseHex(argv[1])).value;
    if FirstChar(argv[2]) == 's' {
      SetOnlyTouchesFlag(pte, 'p');
    } else {
      ClearOnlyTouchesFlag(pte, 'p');
    }
  }

  /** The kernel page directory `kern_pgdir`, seen through `pgdir_walk`: the
      leaf entry of every page whose page table exists, keyed by page-aligned
      virtual address. */
  class PageDirectory {
    var entries: map<nat, Word>

    constructor (entries0: map<nat, Word>)
      ensures entries == entries0
    {
      entries := entries0;
    }

    /** `mon_setpermission`, editing this directory in place. */
    method SetPermission(argv: seq<string>) returns (out: seq<Line>, status: Status)
      modifies this
      ensures (Outcome(out, status), entries) == SetPermissionSpec(argv, old(entries))
    {
      if |argv| != 4 {
        out := [Usage("setpermission ADDR [s|c] [p|w|u]")];
        status := Returned(0);
        return;
      }
      var addr := Strtol.ParseHex(argv[1]);
      var dir := FirstChar(argv[2]);
      var perm := FirstChar(argv[3]);
      var entry := Walk(entries, addr);
      out := [BeforeSetting];
      if entry.None? {
        status := Halted(NullEntryDereference);
        return;
      }
      var pte := entry.value;
      out := out + [EntryReport(addr, pte)];
      var edited := EditPte(pte, dir, perm);
      entries := entries[PageBase(addr) := edited];
      out := out + [AfterSetting, EntryReport(addr, edited)];
      assert out == [BeforeSetting, EntryReport(addr, pte), AfterSetting, EntryReport(addr, edited)];
      status := Returned(0);
    }
  }
}
