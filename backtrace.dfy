/** `mon_backtrace`: follow the chain of saved frame pointers from the current
    `%ebp` and print each frame's return address, five argument words and,
    when the debug tables know the return address, its source location. */
module Backtrace {
  import opened Mmu
  import opened Console

  /** What `debuginfo_eip` fills in for an address it finds in the debug
      tables: file, line, the function's name (not NUL-terminated at the name's
      end), the name's length and the function's start address. */
  datatype DebugInfo = DebugInfo(file: string, line: int, fnName: string, fnNameLen: int, fnAddr: Uint32)

  /** The stack as the loop reads it: the 32-bit word at each readable
      address. The debug tables: the `Eipdebuginfo` of every address for which
      `debuginfo_eip` returns 0. */
  type Memory = map<nat, Uint32>
  type DebugTables = map<Uint32, DebugInfo>

  /** `ebp + 4 * k` in `uint32_t` arithmetic: the k-th word of the frame at
      ebp. Word 0 is the caller's saved ebp, word 1 the return eip, words 2..6
      the first five argument words. */
  function Slot(ebp: Uint32, k: nat): Uint32 {
    (ebp + 4 * k) % ADDRESS_SPACE
  }

  /** The six words the frame's `cprintf` reads: eip and five arguments. */
  predicate ArgsReadable(mem: Memory, ebp: Uint32) {
    forall k :: 1 <= k < 7 ==> Slot(ebp, k) in mem
  }

  /** `%.*s`: at most `len` characters of `name`; a negative precision prints
      all of it. */
  function NamePrefix(name: string, len: int): (p: string)
    ensures p <= name
    ensures len < 0 ==> p == name
    ensures 0 <= len ==> |p| == if len < |name| then len else |name|
  {
    if len < 0 || len >= |name| then name else name[..len]
  }

  /** The lines printed for the frame at ebp: the `ebp ... eip ... args ...`
      line, then the `file:line name+offset` line when `debuginfo_eip`
      succeeds. The offset `eip - eip_fn_addr` is computed in `uint32_t` and
      printed with `%d`. */
  function FrameLines(mem: Memory, debug: DebugTables, ebp: Uint32): (ls: seq<Line>)
    requires ArgsReadable(mem, ebp)
    ensures var eip := mem[Slot(ebp, 1)];
      && |ls| == (if eip in debug then 2 else 1)
      && ls[0].Frame? && ls[0].ebp == ebp && ls[0].eip == eip && |ls[0].args| == 5
      && (forall i :: 0 <= i < 5 ==> ls[0].args[i] == mem[Slot(ebp, i + 2)])
      && (eip in debug ==>
            ls[1].FrameSource? && ls[1].file == debug[eip].file && ls[1].line == debug[eip].line
            && ls[1].fnName <= debug[eip].fnName)
  {
    var eip := mem[Slot(ebp, 1)];
    var frame := Frame(ebp, eip, [mem[Slot(ebp, 2)], mem[Slot(ebp, 3)], mem[Slot(ebp, 4)], mem[Slot(ebp, 5)], mem[Slot(ebp, 6)]]);
    if eip in debug then
      var info := debug[eip];
      var offset := Signed32((eip + ADDRESS_SPACE - info.fnAddr) % ADDRESS_SPACE);
      [frame, FrameSource(info.file, info.line, NamePrefix(info.fnName, info.fnNameLen), offset)]
    else
      [frame]
  }

  /** The offset printed for a return address less than 2 GiB past the start
      of its function is the distance from that start. */
  lemma OffsetIsDistance(mem: Memory, debug: DebugTables, ebp: Uint32)
    requires ArgsReadable(mem, ebp)
    requires mem[Slot(ebp, 1)] in debug
    requires var eip := mem[Slot(ebp, 1)];
      debug[eip].fnAddr <= eip < debug[eip].fnAddr + 0x8000_0000
    ensures var eip := mem[Slot(ebp, 1)];
      FrameLines(mem, debug, ebp)[1].offset == eip - debug[eip].fnAddr
  {
  }

  /** The loop stops within n frames: it meets a zero ebp, or a read faults. A
      chain of saved ebp values that cycles never stops, and neither does the
      source's loop. */
  predicate Ends(mem: Memory, ebp: Uint32, n: nat)
    decreases n
  {
    ebp == 0 || !ArgsReadable(mem, ebp) || Slot(ebp, 0) !in mem
    || (n > 0 && Ends(mem, mem[Slot(ebp, 0)], n - 1))
  }

  /** What the loop prints from the frame at ebp on, and how it ends. */
  function Trace(mem: Memory, debug: DebugTables, ebp: Uint32, n: nat): Outcome
    requires Ends(mem, ebp, n)
    decreases n
  {
    if ebp == 0 then Outcome([], Returned(0))
    else if !ArgsReadable(mem, ebp) then Outcome([], Halted(StackFault))
    else
      var lines := FrameLines(mem, debug, ebp);
      if Slot(ebp, 0) !in mem then Outcome(lines, Halted(StackFault))
      else
        var rest := Trace(mem, debug, mem[Slot(ebp, 0)], n - 1);
        Outcome(lines + rest.out, rest.status)
  }

  /** The frame pointers the loop visits, in order. */
  function Chain(mem: Memory, ebp: Uint32, n: nat): seq<Uint32>
    requires Ends(mem, ebp, n)
    decreases n
  {
    if ebp == 0 || !ArgsReadable(mem, ebp) then []
    else if Slot(ebp, 0) !in mem then [ebp]
    else [ebp] + Chain(mem, mem[Slot(ebp, 0)], n - 1)
  }

  /** The loop reaches a zero ebp with every read succeeding. */
  predicate ReachesZero(mem: Memory, ebp: Uint32, n: nat)
    decreases n
  {
    ebp == 0 || (ArgsReadable(mem, ebp) && Slot(ebp, 0) in mem && n > 0 && ReachesZero(mem, mem[Slot(ebp, 0)], n - 1))
  }

  /** The ebp of every frame line, in order. */
  function Frames(lines: seq<Line>): seq<Uint32> {
    if |lines| == 0 then []
    else (if lines[0].Frame? then [lines[0].ebp] else []) + Frames(lines[1..])
  }

  /** How many frames the loop walks does not depend on the bound n used to
      show that it stops. */
  lemma {:induction false} TraceBoundIrrelevant(mem: Memory, debug: DebugTables, ebp: Uint32, n: nat, m: nat)
    requires Ends(mem, ebp, n) && Ends(mem, ebp, m)
    ensures Trace(mem, debug, ebp, n) == Trace(mem, debug, ebp, m)
    ensures Chain(mem, ebp, n) == Chain(mem, ebp, m)
    decreases n
  {
    if ebp != 0 && ArgsReadable(mem, ebp) && Slot(ebp, 0) in mem {
      TraceBoundIrrelevant(mem, debug, mem[Slot(ebp, 0)], n - 1, m - 1);
    }
  }

  /** The visited frames follow the saved-ebp links: the first is the starting
      ebp, each next one is the word saved at the previous one's base, and none
      is zero. The chain stops only where the loop must: the last frame's
      saved ebp is unreadable, zero, or a frame whose words are unreadable. */
  lemma {:induction false} ChainFollowsLinks(mem: Memory, ebp: Uint32, n: nat)
    requires Ends(mem, ebp, n)
    ensures var c := Chain(mem, ebp, n);
      && (|c| > 0 <==> ebp != 0 && ArgsReadable(mem, ebp))
      && (|c| > 0 ==> c[0] == ebp)
      && (forall i :: 0 <= i < |c| ==> c[i] != 0 && ArgsReadable(mem, c[i]))
      && (forall i :: 0 <= i < |c| - 1 ==> Slot(c[i], 0) in mem && c[i + 1] == mem[Slot(c[i], 0)])
      && (|c| > 0 ==>
            var last := c[|c| - 1];
            Slot(last, 0) !in mem || mem[Slot(last, 0)] == 0 || !ArgsReadable(mem, mem[Slot(last, 0)]))
    decreases n
  {
    if ebp != 0 && ArgsReadable(mem, ebp) && Slot(ebp, 0) in mem {
      ChainFollowsLinks(mem, mem[Slot(ebp, 0)], n - 1);
    }
  }

  lemma {:induction false} FramesAppend(a: seq<Line>, b: seq<Line>)
    ensures Frames(a + b) == Frames(a) + Frames(b)
  {
    if |a| > 0 {
      assert (a + b)[1..] == a[1..] + b;
      FramesAppend(a[1..], b);
    } else {
      assert a + b == b;
    }
  }

  /** One frame line is printed for each visited frame, in chain order. */
  lemma {:induction false} OneFrameLinePerFrame(mem: Memory, debug: DebugTables, ebp: Uint32, n: nat)
    requires Ends(mem, ebp, n)
    ensures Frames(Trace(mem, debug, ebp, n).out) == Chain(mem, ebp, n)
    decreases n
  {
    if ebp != 0 && ArgsReadable(mem, ebp) {
      var lines := FrameLines(mem, debug, ebp);
      assert Frames(lines) == [ebp] by {
        if |lines| == 2 {
          assert !lines[1].Frame? && lines[1..][0] == lines[1];
          assert lines[1..][1..] == [];
          assert Frames(lines[1..]) == [];
        } else {
          assert lines[1..] == [];
        }
      }
      if Slot(ebp, 0) in mem {
        var next := mem[Slot(ebp, 0)];
        OneFrameLinePerFrame(mem, debug, next, n - 1);
        FramesAppend(lines, Trace(mem, debug, next, n - 1).out);
      }
    }
  }

  /** The command returns 0 exactly when the chain reaches a zero ebp with
      every read succeeding; otherwise a read faults. */
  lemma {:induction false} ReturnsIffReachesZero(mem: Memory, debug: DebugTables, ebp: Uint32, n: nat)
    requires Ends(mem, ebp, n)
    ensures var s := Trace(mem, debug, ebp, n).status;
      && (s == Returned(0) || s == Halted(StackFault))
      && (s == Returned(0) <==> ReachesZero(mem, ebp, n))
    decreases n
  {
    if ebp != 0 && ArgsReadable(mem, ebp) && Slot(ebp, 0) in mem {
      ReturnsIffReachesZero(mem, debug, mem[Slot(ebp, 0)], n - 1);
    }
  }

  /** One frame of the loop: its lines are printed and the trace goes on from
      the saved ebp. */
  lemma TraceStep(mem: Memory, debug: DebugTables, ebp: Uint32, m: nat, out: seq<Line>)
    requires Ends(mem, ebp, m) && ebp != 0 && ArgsReadable(mem, ebp) && Slot(ebp, 0) in mem
    ensures m > 0 && Ends(mem, mem[Slot(ebp, 0)], m - 1)
    ensures var rest := Trace(mem, debug, mem[Slot(ebp, 0)], m - 1);
      var t := Trace(mem, debug, ebp, m);
      out + t.out == (out + FrameLines(mem, debug, ebp)) + rest.out && t.status == rest.status
  {
    var rest := Trace(mem, debug, mem[Slot(ebp, 0)], m - 1);
    var lines := FrameLines(mem, debug, ebp);
    assert out + (lines + rest.out) == (out + lines) + rest.out;
  }

  /** A command that returns has walked the whole chain: it ends at a frame
      whose saved ebp is zero, or the starting ebp is zero. */
  lemma {:induction false} ReturnedChainEndsAtZero(mem: Memory, debug: DebugTables, ebp: Uint32, n: nat)
    requires Ends(mem, ebp, n) && Trace(mem, debug, ebp, n).status == Returned(0)
    ensures var c := Chain(mem, ebp, n);
      && (|c| == 0 ==> ebp == 0)
      && (|c| > 0 ==> Slot(c[|c| - 1], 0) in mem && mem[Slot(c[|c| - 1], 0)] == 0)
    decreases n
  {
    if ebp != 0 && ArgsReadable(mem, ebp) && Slot(ebp, 0) in mem {
      var next := mem[Slot(ebp, 0)];
      ReturnedChainEndsAtZero(mem, debug, next, n - 1);
      if next != 0 && ArgsReadable(mem, next) {
        var rest := Chain(mem, next, n - 1);
        assert Chain(mem, ebp, n) == [ebp] + rest;
        assert Chain(mem, ebp, n)[|Chain(mem, ebp, n)| - 1] == rest[|rest| - 1];
      }
    }
  }

  /** A frame whose saved ebp points back at itself makes the loop run
      forever: no bound n makes the chain stop. */
  lemma {:induction false} SelfLinkNeverEnds(mem: Memory, ebp: Uint32, n: nat)
    requires ebp != 0 && ArgsReadable(mem, ebp) && Slot(ebp, 0) in mem && mem[Slot(ebp, 0)] == ebp
    ensures !Ends(mem, ebp, n)
    decreases n
  {
    if n > 0 {
      SelfLinkNeverEnds(mem, ebp, n - 1);
    }
  }

  /** `mon_backtrace`, starting from `read_ebp()`. The ghost n bounds the number
      of frames; a stack whose chain cycles has no such bound. */
  method Backtrace(mem: Memory, debug: DebugTables, ebp0: Uint32, ghost n: nat)
    returns (out: seq<Line>, status: Status)
    requires Ends(mem, ebp0, n)
    ensures var t := Trace(mem, debug, ebp0, n);
      Outcome(out, status) == Outcome([BacktraceHeader] + t.out, t.status)
  {
    out := [BacktraceHeader];
    var ebp := ebp0;
    ghost var m := n;
    ghost var t0 := Trace(mem, debug, ebp0, n);
    while ebp != 0
      invariant Ends(mem, ebp, m)
      invariant var t := Trace(mem, debug, ebp, m);
        [BacktraceHeader] + t0.out == out + t.out && t0.status == t.status
      decreases m
    {
      if !ArgsReadable(mem, ebp) {
        status := Halted(StackFault);
        assert out + [] == out;
        return;
      }
      var lines := FrameLines(mem, debug, ebp);
      if Slot(ebp, 0) !in mem {
        out := out + lines;
        status := Halted(StackFault);
        return;
      }
      TraceStep(mem, debug, ebp, m, out);
      out := out + lines;
      ebp := mem[Slot(ebp, 0)];
      m := m - 1;
    }
    assert out + [] == out;
    status := Returned(0);
  }
}
