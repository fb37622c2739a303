# JOS kernel monitor, modelled in Dafny

This project models the kernel monitor of the JOS teaching kernel
(`kern/monitor.c`): the small command interpreter that reads a line at the
`K>` prompt, splits it into arguments in place, looks the first argument up
in a static command table and runs one of five commands:

- `help` lists the table.
- `kerninfo` prints the linker symbols of the kernel image, their physical
  addresses and the image's footprint in KB.
- `backtrace` follows the chain of saved frame pointers on the stack.
- `showmappings BEGIN END` reports the leaf page-table entry of every page in
  a range.
- `setpermission ADDR {s|c} {p|w|u}` sets or clears one flag of a page's
  entry. The table registers it under the misspelt name `setpremission`.

Modules, one per file:

- `Wrappers`: the `Option` type.
- `Mmu`: the 32-bit word, the `PTE_P`/`PTE_W`/`PTE_U` flag bits (Intel SDM
  Vol. 3A, section 4.3, Table 4-6), `PGSIZE`, `KERNBASE`, and `pgdir_walk`
  over a page directory held as a map from page-aligned address to entry.
- `Console`: the printed lines, as values, and how a command ends.
- `Strtol`: the hex reading of addresses.
- `Tokenizer`: the in-place splitting loop of `runcmd`, on an `array<char>`.
- `Commands`: the command table, the lookup loop and `mon_help`.
- `KernInfo`, `Backtrace`, `Mappings`, `Permission`: the four other commands.
- `Monitor`: `runcmd` as a whole.

Modelling choices:

- Each command's output is a sequence of `Console.Line` values that carry the
  printed numbers and strings.
- A `panic`, or a fault on a bad pointer, ends the command with
  `Halted(...)`. A normal return is `Returned(code)`.
- Stack words, saved registers and linker symbols are integers below 2^32
  (`Mmu.Uint32`), and so is every address `Strtol.ParseHex` reads. The
  page-directory map, `Mmu.Walk`, `Mmu.PageBase`, the addresses in the
  `Mapped`/`NotMapped` lines and the addresses the corrected `showmappings`
  walk visits are plain `nat`; the as-written walk reduces them modulo 2^32.
  The page-table entries, where the code works on bits, are `bv32`.
- Where C arithmetic wraps, the model writes the wrap out explicitly:
  `% ADDRESS_SPACE` for unsigned values and `Signed32` for a `%d` of an
  unsigned value.
- Each loop in the source is a `method` proved against a specification
  function, and the properties are lemmas about that function:
  - the tokenizer: `Tokenizer.Tokenize` against `Tokenized`;
  - the lookup: `Commands.LookupCommand` against `FindFrom`;
  - the mapping walk: `Mappings.WalkRange` against `WalkFrom`;
  - the frame walk: `Backtrace.Backtrace` against `Trace`.
- The page directory that `setpermission` edits in place is the class
  `Permission.PageDirectory`.

Tokenizing a buffer that is already tokenized finds at most the first
argument, and only when the line starts with it: every whitespace byte is now
NUL. `Tokenizer.RetokenizeKeepsFirstRun` states this.

## Model

| member | source | states |
|---|---|---|
| Tokenizer.LineLength | kern/monitor.c:200-203 | the scan ends at the first NUL: the index returned holds NUL and no earlier byte does |
| Tokenizer.Run | kern/monitor.c:211-212 | the argument scanned from a start is the maximal run of non-whitespace characters there: none of it is whitespace and it ends at whitespace or at the end of the line |
| Tokenizer.SkipSpaces | kern/monitor.c:200-201 | skips exactly the whitespace from i, overwriting each byte with NUL, and stops at the end of the line or at a non-whitespace byte |
| Tokenizer.SkipToken | kern/monitor.c:211-212 | from a token start, skips exactly one token without writing, recording that start |
| Tokenizer.Tokenize | kern/monitor.c:196-213 | the buffer afterwards and the outcome are those of `Tokenized`: with fewer than 16 tokens every whitespace byte of the line is NUL and the argument indices are the token starts; with 16 or more the scan stops at the 16th start and reports too many arguments |
| Tokenizer.StartsPrefix | kern/monitor.c:206-210 | scanning further only appends argument indices, so the first 15 recorded before an overflow are the first 15 token starts |
| Tokenizer.StartsSound | kern/monitor.c:198-213 | every recorded index starts a maximal non-whitespace run, and the indices strictly increase |
| Tokenizer.StartsComplete | kern/monitor.c:198-213 | every token start before the scan position is recorded |
| Tokenizer.TokenStartsExact | kern/monitor.c:198-213 | an index is an argument start if and only if it begins a maximal non-whitespace run, and the starts are in left-to-right order |
| Tokenizer.NoTokensIffBlank | kern/monitor.c:202-203 | a line yields no argument if and only if it is all whitespace |
| Tokenizer.StartAtOrBefore | kern/monitor.c:198-212 | every non-whitespace character lies in a token that starts at or before it |
| Tokenizer.CStringOfBlank | kern/monitor.c:198-214 | after tokenizing, the C string at each argument index is exactly that argument, NUL-terminated in place |
| Tokenizer.CStringIsPrefix | kern/monitor.c:210 | the C string at an index is the buffer up to the next NUL |
| Tokenizer.SingleRunStarts | kern/monitor.c:198-212 | text without whitespace has one token start, at its head |
| Tokenizer.RetokenizeKeepsFirstRun | kern/monitor.c:200-201 | tokenizing the tokenized buffer again sees only the run at index 0, so it finds at most that one argument |
| Commands.FindFrom | kern/monitor.c:219-222 | returns the first entry from i whose name equals the argument, and None if and only if no entry from i matches |
| Commands.LookupCommand | kern/monitor.c:219-222 | the strcmp loop over the table returns exactly the first-match lookup |
| Commands.TableNamesDistinct | kern/monitor.c:26-32 | no two table entries share a name, so the first match is the only match |
| Commands.SetpermissionIsUnknown | kern/monitor.c:31 | "setpermission" matches no entry; only "setpremission" reaches the permission editor |
| Commands.Help | kern/monitor.c:36-44 | prints one name/description line per table entry, in table order |
| Strtol.HexDigit | kern/monitor.c:98-99 | a recognised digit has a value below 16 |
| Strtol.ParseHex | kern/monitor.c:98-99 | the address read is a 32-bit unsigned value |
| Strtol.DigitChar | kern/monitor.c:112-118 | the digit printed for d reads back as d |
| Strtol.FormatHex | kern/monitor.c:112-118 | `%x` prints a non-empty run of hex digits |
| Strtol.ScanDigitsAppend | kern/monitor.c:98-99 | reading digits then more text is reading the rest from the digits' value |
| Strtol.ScanFormat | kern/monitor.c:112-118 | the digits `%x` prints read back as the number printed |
| Strtol.ParseFormatRoundTrip | kern/monitor.c:98-118 | an address printed with `%x` or `0x%x` and typed back is read as the same address |
| Strtol.NegativeWraps | kern/monitor.c:133 | a minus sign yields the 32-bit two's complement: "-1" reads as 0xffffffff |
| Console.EntryReport | kern/monitor.c:108-118 | a present mapping is reported for the address queried and with P set, and a "doesn't exist" line names the address queried |
| Console.EntryReportMeaning | kern/monitor.c:108-118 | an entry is reported present if and only if its P bit is set; then with its frame address (page-aligned, high bits of the entry) and its W and U bits, otherwise as "doesn't exist" for the address |
| Permission.Mask | kern/monitor.c:153-160 | the mask is 0 or one of PTE_P, PTE_W, PTE_U, and nonzero exactly for 'p', 'w' and 'u' |
| Permission.SetOnlyTouchesFlag | kern/monitor.c:162 | 's' turns the selected bit on and changes no other bit |
| Permission.ClearOnlyTouchesFlag | kern/monitor.c:163 | 'c' turns the selected bit off and changes no other bit |
| Permission.EditPte | kern/monitor.c:153-164 | a direction other than 's' or 'c', or a permission letter other than 'p', 'w' or 'u', leaves the entry unchanged |
| Permission.SetThenClearRestores | kern/monitor.c:162-163 | setting a clear bit and then clearing it restores the entry exactly |
| Permission.EditIdempotent | kern/monitor.c:162-163 | setting twice is setting once, and clearing twice is clearing once |
| Permission.SetPermissionWritesOneEntry | kern/monitor.c:128-180 | the command changes at most the entry of the page holding ADDR; no page table appears or disappears; afterwards that entry is the edited word, and the second report shows it; it returns 0 or faults on a null entry |
| Permission.PresentBitFollowsCommand | kern/monitor.c:153-178 | after `s p` the page is reported present; after `c p` it is reported absent |
| Permission.PageDirectory.SetPermission | kern/monitor.c:126-180 | prints usage for a wrong argument count; faults after "Before setting:" when the walk finds no page table; otherwise reports the entry, edits it in place, and reports it again |
| Mappings.VisitCountExact | kern/monitor.c:104-120 | the first VisitCount(begin, end) addresses of begin, begin + PGSIZE, ... are exactly those not past end |
| Mappings.VisitCountStep | kern/monitor.c:104-120 | each step leaves one address fewer to visit |
| Mappings.WalkCount | kern/monitor.c:104-121 | the walk makes at most (end - begin)/PGSIZE + 1 `pgdir_walk` calls, and exactly that many unless it panics |
| Mappings.WalkAddresses | kern/monitor.c:104-120 | the k-th address walked is begin + k * PGSIZE, and none is past end |
| Mappings.WalkReports | kern/monitor.c:105-119 | each successful walk prints one line, present if and only if P is set; a null walk result panics, and it is the last address walked |
| Mappings.ShowMappingsVisits | kern/monitor.c:94-122 | a wrong argument count prints usage and walks nothing; an inverted range prints "Invalid address input." and walks nothing; otherwise it walks exactly BEGIN, BEGIN + PGSIZE, ... up to END unless it panics; the k-th line is the report of the k-th page walked, present if and only if P is set, and a returning command prints exactly one line per page walked |
| Mappings.WalkRange | kern/monitor.c:104-121 | the loop produces the lines, walked addresses and ending of `WalkFrom` |
| Mappings.ShowMappings | kern/monitor.c:91-123 | the command's lines, walked addresses and ending are those of `ShowMappingsSpec` |
| Mappings.AsWrittenWalk | kern/monitor.c:104-120 | the loop as written, with `begin` wrapping modulo 2^32: when it exits, it has walked nothing for an inverted range, otherwise BEGIN first, and never an address past END |
| Mappings.AsWrittenNeverExits | kern/monitor.c:104-120 | as written, with BEGIN page-aligned, every page table present and END at or above 0xfffff000, the loop does not finish within any number of steps |
| Mappings.AsWrittenWrapsToZero | kern/monitor.c:104-120 | as written, the step from 0xfffff000 goes to address 0: the walk from the last page continues exactly as the walk from 0, so when it ends (a later page table is missing) the address it walks after 0xfffff000 is 0 |
| Mappings.LastPageVisitedOnce | kern/monitor.c:104-121 | the corrected walk of the last page visits it once and returns |
| KernInfo.Phys | kern/monitor.c:53-56 | the physical address plus KERNBASE, modulo 2^32, is the virtual address; it is va - KERNBASE above KERNBASE and wraps below it |
| KernInfo.FootprintKB | kern/monitor.c:57-58 | the footprint, computed in 32-bit arithmetic and divided as C does, lies between -2^21 and 2^21 |
| KernInfo.FootprintIsCeiling | kern/monitor.c:57-58 | for an image of at most 2 GiB - 1 KiB (0x7FFFFC00 bytes) the footprint is its size in KB rounded up |
| KernInfo.FootprintOverflows | kern/monitor.c:57-58 | at 0x7FFFFC00 bytes the footprint is 2097151 KB, and one byte more makes the rounded size overflow `ptrdiff_t`, so -2097152 KB is printed |
| KernInfo.FootprintExample | kern/monitor.c:57-58 | an image from 0xf0100000 to 0xf0120000 is 128 KB, and one byte more is 129 KB |
| KernInfo.KernInfo | kern/monitor.c:46-60 | prints `_start` as it is, then entry, etext, edata and end, each with a physical address that KERNBASE maps back to it, then the footprint |
| Backtrace.NamePrefix | kern/monitor.c:79-83 | `%.*s` prints a prefix of the name of the given length, or all of it for a negative length |
| Backtrace.FrameLines | kern/monitor.c:72-85 | a frame prints ebp, the word at ebp+4 as eip, and the words at ebp+8 to ebp+24 as its five arguments; when the debug tables know eip, a second line gives its file, line and function name |
| Backtrace.OffsetIsDistance | kern/monitor.c:84 | a return address less than 2 GiB past its function's start prints its distance from that start |
| Backtrace.TraceBoundIrrelevant | kern/monitor.c:71-87 | what the loop prints does not depend on the bound used to show that it stops |
| Backtrace.ChainFollowsLinks | kern/monitor.c:71-86 | the frames visited start at the current ebp, and each next one is the word saved at the previous one's base; none is zero; the chain stops only where the loop must: the last frame's saved ebp is unreadable, zero, or a frame whose words are unreadable |
| Backtrace.ReturnedChainEndsAtZero | kern/monitor.c:71-88 | when the command returns, the chain ends at a frame whose saved ebp is zero (or the current ebp is zero) |
| Backtrace.SelfLinkNeverEnds | kern/monitor.c:71-86 | a frame whose saved ebp points at itself makes the loop run forever: no bound makes the chain stop |
| Backtrace.OneFrameLinePerFrame | kern/monitor.c:71-87 | one frame line is printed for each visited frame, in chain order |
| Backtrace.ReturnsIffReachesZero | kern/monitor.c:71-88 | the command returns 0 if and only if the chain reaches a zero ebp with every read succeeding; otherwise a read faults |
| Backtrace.Backtrace | kern/monitor.c:65-89 | prints the header and then `Trace` of the chain from the current ebp, and ends as it does |
| Monitor.Arguments | kern/monitor.c:210-214 | the argv strings handed to a command are exactly the tokens of the line |
| Monitor.Dispatch | kern/monitor.c:221 | running a handler gives that handler's output, ending and page directory; only the backtrace needs the saved-ebp chain to stop |
| Monitor.RunCmd | kern/monitor.c:188-225 | leaves the buffer tokenized; refuses 16 or more arguments; does nothing on a blank line; reports an unknown first argument; otherwise runs the first matching entry with the tokens as argv; any stack will do unless the line names `backtrace` |
| Monitor.OnlySetpermissionHandlerWrites | kern/monitor.c:161-164 | only the permission handler, given four arguments, writes the page directory, and only the entry of ADDR's page |
| Monitor.OnlySetpermissionWrites | kern/monitor.c:188-225 | a command line changes the page directory only if it is four tokens starting with "setpremission", and then only at ADDR's page; no line adds or removes a page table |
| Monitor.HandlersReturnZero | kern/monitor.c:36-180 | every handler that returns, returns 0 |
| Monitor.NeverReturnsNegative | kern/monitor.c:217-224 | `runcmd` never returns a negative value, so the monitor loop never exits through it |
| Monitor.BlankLineDoesNothing | kern/monitor.c:217-218 | a whitespace-only line prints nothing and changes nothing |
| Monitor.TooManyArgumentsRefused | kern/monitor.c:206-209 | a line of 16 or more tokens prints "Too many arguments (max 16)" and runs nothing |

## Left out

- Console I/O. `cprintf`, `readline` and the welcome banner (kern/monitor.c:232-233) are left out. Output is a sequence of line values carrying the printed numbers and strings.
- Exact formatting is not modelled: `%08x` padding and the exact bytes of each message.
- The `monitor` loop (kern/monitor.c:238-243) is left out because it never terminates. One `runcmd` step is modelled, and `Monitor.NeverReturnsNegative` states why the loop never breaks.
- `print_trapframe` and the trap frame are left out. No command reads the trap frame.
- `pgdir_walk` is a map lookup: a missing page table is a missing key.
- `debuginfo_eip` is a map from return address to debug info: a missing key is a failed lookup.
- `read_ebp` is a parameter.
- Stack memory is a map from address to word.
- `strtol` is a library routine and is not part of this model. `Strtol.ParseHex` is a simple stand-in: an optional sign, an optional "0x", the leading hex digits, and the value reduced modulo 2^32 as the cast to `uintptr_t` does. It does not model overflow saturation at `LONG_MAX`.
- The end pointer `ptr` that `mon_showmapping` passes (kern/monitor.c:98-99) is not declared in that function. The model reads the addresses as if it were.
- The `ROUNDUP` macro lives in inc/types.h, which is not part of this model. `KernInfo.FootprintKB` follows JOS's definition of it: add n-1 in `uint32_t`, round down, cast back.
- The `optimize("O0")` attribute on `mon_backtrace` and the TLB visibility of a PTE write are compiler and hardware concerns, and are left out.
- The null sentinel `argv[argc] = 0` (kern/monitor.c:197,214) is implicit in the length of the argument sequence.
- `argv` holds indices into the buffer, not pointers. The handlers get the strings, built by `Monitor.Arguments`. Aliasing between those strings and the buffer is not modelled.
- Backtrace.Backtrace: requires the saved-ebp chain to stop within a bound: a zero ebp, or a read that faults. On a cyclic chain the source loops forever (`Backtrace.SelfLinkNeverEnds`), and that case is not modelled. `Monitor.RunCmd` and the lemmas about it carry this requirement only for a line that dispatches to `backtrace` (`Monitor.StackOk`); every other line runs on any stack.
- Mappings.ShowMappings: `begin` steps as an unbounded integer, which is the corrected loop. The 32-bit wrap-around of the source is `Mappings.AsWrittenWalk`, described under Findings.
- Permission.PageDirectory.SetPermission: for a direction other than 's' or 'c' the source writes nothing. The model stores the unchanged word back, which leaves the directory equal (`Permission.EditPte`).
- A fault on a stack read is `Halted(StackFault)`. Faults the kernel could take elsewhere are not modelled, for example on a bad `argv` pointer or a bad debug-info string.

## Findings

| source | as written | input that shows it | evidently intended | confidence | as-written member | corrected member |
|---|---|---|---|---|---|---|
| kern/monitor.c:104-120 | `begin` is a 32-bit `uintptr_t`, the loop runs while `begin <= end`, and `begin += PGSIZE` wraps from 0xfffff000 to 0 | `showmappings fffff000 ffffffff` with every page table present: every page-aligned address is at most END, so the loop never ends; with the low page tables absent it walks from address 0 and panics | stop after the last page not past END, walking (END - BEGIN)/PGSIZE + 1 pages | not executed | Mappings.AsWrittenNeverExits | Mappings.WalkCount |
