/** `mon_showmapping`: report the leaf entry of every page from BEGIN to END. */
module Mappings {
  import opened Wrappers
  import opened Mmu
  import opened Console
  import Strtol

  /** How many addresses begin, begin + PGSIZE, ... lie at or below end. */
  function VisitCount(begin: nat, end: nat): nat {
    if begin <= end then (end - begin) / PGSIZE + 1 else 0
  }

  /** The k-th address of the stepping sequence from begin. */
  function PageAt(begin: nat, k: nat): nat {
    begin + k * PGSIZE
  }

  /** The first VisitCount(begin, end) addresses of the stepping sequence are
      exactly those that do not pass end. */
  lemma VisitCountExact(begin: nat, end: nat, k: nat)
    ensures k < VisitCount(begin, end) <==> PageAt(begin, k) <= end
  {
  }

  /** One step of the walk leaves one address fewer to visit. */
  lemma VisitCountStep(a: nat, end: nat)
    requires a <= end
    ensures VisitCount(a, end) == 1 + VisitCount(a + PGSIZE, end)
  {
    if a + PGSIZE <= end {
      assert (end - a) / PGSIZE == (end - (a + PGSIZE)) / PGSIZE + 1;
    } else {
      assert (end - a) / PGSIZE == 0;
    }
  }

  /** What a walk prints, which addresses it hands to `pgdir_walk`, and how it
      ends. */
  datatype Report = Report(lines: seq<Line>, walked: seq<nat>, status: Status)

  /** The walk from address a up to end, stepping by PGSIZE. Addresses are
      unbounded integers here, so the walk stops at the last page that does not
      pass end; the source's 32-bit `begin += PGSIZE` wraps instead (see
      `AsWrittenNeverExits`). A null walk result panics. */
  function WalkFrom(entries: map<nat, Word>, a: nat, end: nat): Report
    decreases end + 1 - a
  {
    if a > end then Report([], [], Returned(0))
    else
      match Walk(entries, a)
      case None => Report([], [a], Halted(WalkOutOfMemory))
      case Some(pte) =>
        var r := WalkFrom(entries, a + PGSIZE, end);
        Report([EntryReport(a, pte)] + r.lines, [a] + r.walked, r.status)
  }

  /** `showmappings BEGIN END` (argv[0] is the command name). An inverted range
      is reported, and then the walk finds nothing to visit. */
  function ShowMappingsSpec(argv: seq<string>, entries: map<nat, Word>): Report {
    if |argv| != 3 then Report([Usage("showmappings BEGIN_ADDR END_ADDR")], [], Returned(0))
    else
      var begin := Strtol.ParseHex(argv[1]);
      var end := Strtol.ParseHex(argv[2]);
      var r := WalkFrom(entries, begin, end);
      Report((if begin > end then [InvalidAddress] else []) + r.lines, r.walked, r.status)
  }

  /** The walk hands `pgdir_walk` at most VisitCount(a, end) addresses, and all
      of them unless it panics. */
  lemma {:induction false} WalkCount(entries: map<nat, Word>, a: nat, end: nat)
    ensures var r := WalkFrom(entries, a, end);
      && |r.walked| <= VisitCount(a, end)
      && (r.status == Returned(0) ==> |r.walked| == VisitCount(a, end))
    decreases end + 1 - a
  {
    if a <= end {
      VisitCountStep(a, end);
      if Walk(entries, a).Some? {
        WalkCount(entries, a + PGSIZE, end);
      }
    }
  }

  /** The walk hands `pgdir_walk` the addresses a, a + PGSIZE, ... in order,
      never one past end. */
  lemma {:induction false} WalkAddresses(entries: map<nat, Word>, a: nat, end: nat)
    ensures var r := WalkFrom(entries, a, end);
      forall k :: 0 <= k < |r.walked| ==> r.walked[k] == PageAt(a, k) <= end
    decreases end + 1 - a
  {
    if a <= end && Walk(entries, a).Some? {
      WalkAddresses(entries, a + PGSIZE, end);
      var r := WalkFrom(entries, a + PGSIZE, end);
      forall k | 1 <= k < 1 + |r.walked|
        ensures PageAt(a + PGSIZE, k - 1) == PageAt(a, k)
      {
      }
    }
  }

  /** Every successful walk prints one line, present exactly when the entry's P
      bit is set; a null walk result ends the command with a panic, and then it
      is the last address handed to `pgdir_walk`. */
  lemma {:induction false} WalkReports(entries: map<nat, Word>, a: nat, end: nat)
    ensures var r := WalkFrom(entries, a, end);
      && (r.status == Returned(0) || r.status == Halted(WalkOutOfMemory))
      && |r.lines| == (if r.status == Returned(0) then |r.walked| else |r.walked| - 1)
      && (r.status == Halted(WalkOutOfMemory) ==> |r.walked| > 0 && Walk(entries, r.walked[|r.walked| - 1]).None?)
      && (forall k :: 0 <= k < |r.lines| ==> Walk(entries, r.walked[k]).Some?)
      && (forall k :: 0 <= k < |r.lines| ==>
            r.lines[k] == EntryReport(r.walked[k], Walk(entries, r.walked[k]).value)
            && (r.lines[k].Mapped? <==> HasFlag(Walk(entries, r.walked[k]).value, PTE_P)))
    decreases end + 1 - a
  {
    if a <= end && Walk(entries, a).Some? {
      WalkReports(entries, a + PGSIZE, end);
      EntryReportMeaning(a, Walk(entries, a).value);
    }
  }

  /** `showmappings` as a whole: a wrong argument count prints the usage and
      walks nothing; an inverted range prints "Invalid address input." and
      walks nothing; otherwise it hands `pgdir_walk` exactly BEGIN, BEGIN +
      PGSIZE, ... up to END, unless a null walk result panics first, and
      prints one report per page walked, present exactly when its P bit is
      set. */
  lemma ShowMappingsVisits(argv: seq<string>, entries: map<nat, Word>)
    ensures var r := ShowMappingsSpec(argv, entries);
      && (|argv| != 3 ==> r.lines == [Usage("showmappings BEGIN_ADDR END_ADDR")] && r.walked == [] && r.status == Returned(0))
      && (|argv| == 3 ==>
            var begin := Strtol.ParseHex(argv[1]);
            var end := Strtol.ParseHex(argv[2]);
            && (begin > end ==> r.lines == [InvalidAddress] && r.walked == [] && r.status == Returned(0))
            && (forall k :: 0 <= k < |r.walked| ==> r.walked[k] == PageAt(begin, k) <= end)
            && (r.status == Returned(0) ==> |r.walked| == VisitCount(begin, end))
            && (r.status != Returned(0) ==> r.status == Halted(WalkOutOfMemory))
            && (begin <= end ==>
                  && |r.lines| <= |r.walked|
                  && (r.status == Returned(0) ==> |r.lines| == |r.walked|)
                  && (forall k :: 0 <= k < |r.lines| ==> Walk(entries, r.walked[k]).Some?)
                  && (forall k :: 0 <= k < |r.lines| ==>
                        r.lines[k] == EntryReport(r.walked[k], Walk(entries, r.walked[k]).value))
                  && (forall k :: 0 <= k < |r.lines| ==>
                        (r.lines[k].Mapped? <==> HasFlag(Walk(entries, r.walked[k]).value, PTE_P)))))
  {
    if |argv| == 3 {
      var begin := Strtol.ParseHex(argv[1]);
      var end := Strtol.ParseHex(argv[2]);
      WalkCount(entries, begin, end);
      WalkAddresses(entries, begin, end);
      WalkReports(entries, begin, end);
      if begin > end {
        assert [InvalidAddress] + [] == [InvalidAddress];
      } else {
        assert [] + WalkFrom(entries, begin, end).lines == WalkFrom(entries, begin, end).lines;
      }
    }
  }

  /** One step of the walk: the page at a is reported and the walk goes on
      from the next page. */
  lemma WalkRangeStep(entries: map<nat, Word>, a: nat, end: nat, lines: seq<Line>, walked: seq<nat>)
    requires a <= end && Walk(entries, a).Some?
    ensures var r := WalkFrom(entries, a, end);
      var rest := WalkFrom(entries, a + PGSIZE, end);
      Report(lines + r.lines, walked + r.walked, r.status)
        == Report((lines + [EntryReport(a, Walk(entries, a).value)]) + rest.lines, (walked + [a]) + rest.walked, rest.status)
  {
    var line := EntryReport(a, Walk(entries, a).value);
    var rest := WalkFrom(entries, a + PGSIZE, end);
    assert lines + ([line] + rest.lines) == (lines + [line]) + rest.lines;
    assert walked + ([a] + rest.walked) == (walked + [a]) + rest.walked;
  }

  /** The `while (begin <= end)` loop of `mon_showmapping`, with `begin`
      stepping as an unbounded integer. */
  method WalkRange(entries: map<nat, Word>, begin: nat, end: nat)
    returns (lines: seq<Line>, walked: seq<nat>, status: Status)
    ensures Report(lines, walked, status) == WalkFrom(entries, begin, end)
  {
    ghost var whole := WalkFrom(entries, begin, end);
    var a := begin;
    lines, walked := [], [];
    while a <= end
      invariant var r := WalkFrom(entries, a, end);
        whole == Report(lines + r.lines, walked + r.walked, r.status)
      decreases end + 1 - a
    {
      var entry := Walk(entries, a);
      if entry.None? {
        WalkRangeHalts(entries, a, end, lines, walked);
        walked := walked + [a];
        status := Halted(WalkOutOfMemory);
        return;
      }
      WalkRangeStep(entries, a, end, lines, walked);
      lines := lines + [EntryReport(a, entry.value)];
      walked := walked + [a];
      a := a + PGSIZE;
    }
    WalkRangeEnds(entries, a, end, lines, walked);
    status := Returned(0);
  }

  /** The walk panics at a page with no page table. */
  lemma WalkRangeHalts(entries: map<nat, Word>, a: nat, end: nat, lines: seq<Line>, walked: seq<nat>)
    requires a <= end && Walk(entries, a).None?
    ensures var r := WalkFrom(entries, a, end);
      Report(lines + r.lines, walked + r.walked, r.status) == Report(lines, walked + [a], Halted(WalkOutOfMemory))
  {
    assert lines + [] == lines;
  }

  /** Past END the walk adds nothing. */
  lemma WalkRangeEnds(entries: map<nat, Word>, a: nat, end: nat, lines: seq<Line>, walked: seq<nat>)
    requires a > end
    ensures var r := WalkFrom(entries, a, end);
      Report(lines + r.lines, walked + r.walked, r.status) == Report(lines, walked, Returned(0))
  {
    assert lines + [] == lines && walked + [] == walked;
  }

  /** `mon_showmapping`. */
  method ShowMappings(argv: seq<string>, entries: map<nat, Word>)
    returns (out: seq<Line>, walked: seq<nat>, status: Status)
    ensures Report(out, walked, status) == ShowMappingsSpec(argv, entries)
  {
    if |argv| != 3 {
      out := [Usage("showmappings BEGIN_ADDR END_ADDR")];
      walked := [];
      status := Returned(0);
      return;
    }
    var begin: nat := Strtol.ParseHex(argv[1]);
    var end: nat := Strtol.ParseHex(argv[2]);
    // `begin < 0` and `end < 0` cannot hold for unsigned values
    var invalid := if begin > end then [InvalidAddress] else [];
    var lines;
    lines, walked, status := WalkRange(entries, begin, end);
    out := invalid + lines;
  }

  /** The loop as written, where `begin` is a 32-bit `uintptr_t` and
      `begin += PGSIZE` wraps to 0 past 0xfffff000: the addresses walked when
      the loop exits within `fuel` iterations, None when it has not. */
  function AsWrittenWalk(entries: map<nat, Word>, begin: nat, end: nat, fuel: nat): (r: Option<seq<nat>>)
    ensures r.Some? ==> (|r.value| > 0 <==> begin <= end)
    ensures r.Some? && |r.value| > 0 ==> r.value[0] == begin
    ensures r.Some? ==> forall k :: 0 <= k < |r.value| ==> r.value[k] <= end
    decreases fuel
  {
    if begin > end then Some([])
    else if fuel == 0 then None
    else if Walk(entries, begin).None? then Some([begin])
    else
      match AsWrittenWalk(entries, (begin + PGSIZE) % ADDRESS_SPACE, end, fuel - 1)
      case None => None
      case Some(rest) => Some([begin] + rest)
  }

  /** As written, a range that reaches the last page never ends when every
      page table exists: every page-aligned 32-bit address is at most
      0xfffff000, so the walk wraps from there to 0 and cycles forever. */
  lemma {:induction false} AsWrittenNeverExits(entries: map<nat, Word>, begin: nat, end: nat, fuel: nat)
    requires forall p :: 0 <= p < ADDRESS_SPACE && p % PGSIZE == 0 ==> p in entries
    requires begin < ADDRESS_SPACE && begin % PGSIZE == 0
    requires 0xFFFF_F000 <= end < ADDRESS_SPACE
    ensures AsWrittenWalk(entries, begin, end, fuel).None?
    decreases fuel
  {
    assert PageBase(begin) == begin;
    if fuel > 0 {
      AsWrittenNeverExits(entries, (begin + PGSIZE) % ADDRESS_SPACE, end, fuel - 1);
    }
  }

  /** As written, the step from the last page goes to 0: a walk from
      0xfffff000 continues exactly as the walk from address 0 with one less
      step, so when it ends, the address it walks next is 0. */
  lemma AsWrittenWrapsToZero(entries: map<nat, Word>, end: nat, fuel: nat)
    requires 0xFFFF_F000 <= end < ADDRESS_SPACE && fuel >= 2
    requires Walk(entries, 0xFFFF_F000).Some?
    ensures AsWrittenWalk(entries, 0xFFFF_F000, end, fuel)
      == match AsWrittenWalk(entries, 0, end, fuel - 1)
         case None => None
         case Some(rest) => Some([0xFFFF_F000] + rest)
    ensures var r := AsWrittenWalk(entries, 0xFFFF_F000, end, fuel);
      r.Some? ==> |r.value| >= 2 && r.value[0] == 0xFFFF_F000 && r.value[1] == 0
  {
    assert (0xFFFF_F000 + PGSIZE) % ADDRESS_SPACE == 0;
    var rest := AsWrittenWalk(entries, 0, end, fuel - 1);
    assert rest.Some? ==> |rest.value| >= 1 && rest.value[0] == 0;
  }

  /** The corrected walk from the last page visits it once and stops. */
  lemma LastPageVisitedOnce(entries: map<nat, Word>)
    requires Walk(entries, 0xFFFF_F000).Some?
    ensures WalkFrom(entries, 0xFFFF_F000, 0xFFFF_F000).walked == [0xFFFF_F000]
    ensures WalkFrom(entries, 0xFFFF_F000, 0xFFFF_F000).status == Returned(0)
  {
  }
}
