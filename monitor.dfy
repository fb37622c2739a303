/** `runcmd`: tokenize a command line in place, look the first argument up in
    the command table and run the command it names. */
module Monitor {
  import opened Wrappers
  import opened Mmu
  import opened Console
  import Tokenizer
  import Strtol
  import opened Commands
  import KernInfo
  import Backtrace
  import Mappings
  import Permission

  /** What the commands read besides their arguments: the linker symbols, the
      stack with the current `%ebp`, and the debug tables. The page directory
      is the one piece of state a command changes; it is passed separately. */
  datatype Env = Env(syms: KernInfo.LinkSymbols, stack: Backtrace.Memory, ebp: Uint32, debug: Backtrace.DebugTables)

  /** Running handler h on argv: what it prints, how it ends, and the page
      directory it leaves. `depth` bounds the backtrace's frames; only the
      backtrace needs its chain of saved ebp values to stop. */
  function Execute(h: Handler, argv: seq<string>, entries: map<nat, Word>, env: Env, depth: nat): (Outcome, map<nat, Word>)
    requires h == MonBacktrace ==> Backtrace.Ends(env.stack, env.ebp, depth)
  {
    match h
    case MonHelp => (Outcome(Listing(), Returned(0)), entries)
    case MonKerninfo => (Outcome(KernInfo.KernInfo(env.syms), Returned(0)), entries)
    case MonBacktrace =>
      var t := Backtrace.Trace(env.stack, env.debug, env.ebp, depth);
      (Outcome([BacktraceHeader] + t.out, t.status), entries)
    case MonShowmapping =>
      var r := Mappings.ShowMappingsSpec(argv, entries);
      (Outcome(r.lines, r.status), entries)
    case MonSetpermission => Permission.SetPermissionSpec(argv, entries)
  }

  /** The handler a line dispatches to: None when it is refused for too many
      arguments, blank, or its first argument names no command. */
  function LineHandler(s: seq<char>): Option<Handler>
    requires Tokenizer.NUL in s
  {
    var argv := Tokenizer.Tokens(Tokenizer.Line(s));
    if Tokenizer.Tokenized(s).1.TooMany? || |argv| == 0 then None
    else
      match Lookup(argv[0])
      case None => None
      case Some(i) => Some(Table[i].func)
  }

  /** What `runcmd` needs of the stack: a `backtrace` line needs the chain of
      saved ebp values to stop within depth frames; any other line runs on any
      stack. */
  predicate StackOk(s: seq<char>, env: Env, depth: nat)
    requires Tokenizer.NUL in s
  {
    LineHandler(s) == Some(MonBacktrace) ==> Backtrace.Ends(env.stack, env.ebp, depth)
  }

  /** `runcmd` on the buffer `s`: too many arguments are refused, a blank line
      does nothing, an unknown first argument is reported, and otherwise the
      first entry whose name is the first argument runs with the arguments as
      argv. */
  function RunCmdSpec(s: seq<char>, entries: map<nat, Word>, env: Env, depth: nat): (Outcome, map<nat, Word>)
    requires Tokenizer.NUL in s && StackOk(s, env, depth)
  {
    if Tokenizer.Tokenized(s).1.TooMany? then (Outcome([TooManyArgs(Tokenizer.MAXARGS)], Returned(0)), entries)
    else
      var argv := Tokenizer.Tokens(Tokenizer.Line(s));
      if |argv| == 0 then (Outcome([], Returned(0)), entries)
      else
        match Lookup(argv[0])
        case None => (Outcome([UnknownCommand(argv[0])], Returned(0)), entries)
        case Some(i) => Execute(Table[i].func, argv, entries, env, depth)
  }

  /** `argv[k]` as the handlers see it: the C string at the k-th argument
      index of the tokenized buffer. Each is exactly the k-th token. */
  method Arguments(buf: array<char>, ghost s: seq<char>, st: seq<nat>) returns (argv: seq<string>)
    requires Tokenizer.NUL in s && st == Tokenizer.TokenStarts(Tokenizer.Line(s))
    requires buf[..] == Tokenizer.Blank(s, Tokenizer.LineLength(s))
    ensures argv == Tokenizer.Tokens(Tokenizer.Line(s))
  {
    ghost var line := Tokenizer.Line(s);
    Tokenizer.StartsSound(line, |line|);
    argv := [];
    for k := 0 to |st|
      invariant |argv| == k
      invariant forall j :: 0 <= j < k ==> argv[j] == Tokenizer.Tokens(line)[j]
    {
      Tokenizer.CStringOfBlank(s, st[k]);
      argv := argv + [Tokenizer.CString(buf[..], st[k])];
    }
  }

  /** `commands[i].func(argc, argv, tf)`: run handler h. */
  method Dispatch(h: Handler, argv: seq<string>, pd: Permission.PageDirectory, env: Env, ghost depth: nat)
    returns (out: seq<Line>, status: Status)
    requires h == MonBacktrace ==> Backtrace.Ends(env.stack, env.ebp, depth)
    modifies pd
    ensures (Outcome(out, status), pd.entries) == Execute(h, argv, old(pd.entries), env, depth)
  {
    match h
    case MonHelp =>
      out := Help();
      status := Returned(0);
    case MonKerninfo =>
      out := KernInfo.KernInfo(env.syms);
      status := Returned(0);
    case MonBacktrace =>
      out, status := Backtrace.Backtrace(env.stack, env.debug, env.ebp, depth);
    case MonShowmapping =>
      var walked;
      out, walked, status := Mappings.ShowMappings(argv, pd.entries);
    case MonSetpermission =>
      out, status := pd.SetPermission(argv);
  }

  /** `runcmd`. The buffer is left tokenized. */
  method RunCmd(buf: array<char>, pd: Permission.PageDirectory, env: Env, ghost depth: nat)
    returns (out: seq<Line>, status: Status)
    requires Tokenizer.NUL in buf[..] && StackOk(buf[..], env, depth)
    modifies buf, pd
    ensures buf[..] == Tokenizer.Tokenized(old(buf[..])).0
    ensures (Outcome(out, status), pd.entries) == RunCmdSpec(old(buf[..]), old(pd.entries), env, depth)
  {
    ghost var s := buf[..];
    var parse := Tokenizer.Tokenize(buf);
    if parse.TooMany? {
      out := [TooManyArgs(Tokenizer.MAXARGS)];
      status := Returned(0);
      return;
    }
    var argv := Arguments(buf, s, parse.argv);
    if |argv| == 0 {
      out := [];
      status := Returned(0);
      return;
    }
    var found := LookupCommand(argv[0]);
    if found.None? {
      out := [UnknownCommand(argv[0])];
      status := Returned(0);
      return;
    }
    out, status := Dispatch(Table[found.value].func, argv, pd, env, depth);
  }

  /** Only `mon_setpermission` writes the page directory, and only when given
      four arguments: then at most the entry of the page holding the address. */
  lemma OnlySetpermissionHandlerWrites(h: Handler, argv: seq<string>, entries: map<nat, Word>, env: Env, depth: nat)
    requires h == MonBacktrace ==> Backtrace.Ends(env.stack, env.ebp, depth)
    ensures var after := Execute(h, argv, entries, env, depth).1;
      after != entries ==>
        && h == MonSetpermission && |argv| == 4
        && after.Keys == entries.Keys
        && forall a :: a in entries && a != PageBase(Strtol.ParseHex(argv[1])) ==> after[a] == entries[a]
  {
    if h == MonSetpermission {
      Permission.SetPermissionWritesOneEntry(argv, entries);
    }
  }

  /** Only the command registered as "setpremission", run with four arguments,
      changes the page directory, and then only the entry of that address's
      page; no line adds or removes a page table. */
  lemma OnlySetpermissionWrites(s: seq<char>, entries: map<nat, Word>, env: Env, depth: nat)
    requires Tokenizer.NUL in s && StackOk(s, env, depth)
    ensures var after := RunCmdSpec(s, entries, env, depth).1;
      var argv := Tokenizer.Tokens(Tokenizer.Line(s));
      && after.Keys == entries.Keys
      && (after != entries ==>
        && |argv| == 4 && argv[0] == "setpremission"
        && forall a :: a in entries && a != PageBase(Strtol.ParseHex(argv[1])) ==> after[a] == entries[a])
  {
    var argv := Tokenizer.Tokens(Tokenizer.Line(s));
    RunCmdDirectory(s, entries, env, depth);
    if Tokenizer.Tokenized(s).1.Args? && |argv| > 0 && Lookup(argv[0]).Some? {
      var i := Lookup(argv[0]).value;
      OnlySetpermissionHandlerWrites(Table[i].func, argv, entries, env, depth);
    }
  }

  /** The directory a line leaves: the dispatched handler's, or the old one
      when no handler runs. */
  lemma RunCmdDirectory(s: seq<char>, entries: map<nat, Word>, env: Env, depth: nat)
    requires Tokenizer.NUL in s && StackOk(s, env, depth)
    ensures var argv := Tokenizer.Tokens(Tokenizer.Line(s));
      RunCmdSpec(s, entries, env, depth).1
        == if Tokenizer.Tokenized(s).1.Args? && |argv| > 0 && Lookup(argv[0]).Some?
           then Execute(Table[Lookup(argv[0]).value].func, argv, entries, env, depth).1
           else entries
  {
  }

  /** No handler returns a negative value. */
  lemma HandlersReturnZero(h: Handler, argv: seq<string>, entries: map<nat, Word>, env: Env, depth: nat)
    requires h == MonBacktrace ==> Backtrace.Ends(env.stack, env.ebp, depth)
    ensures var o := Execute(h, argv, entries, env, depth).0;
      o.status.Returned? ==> o.status.code == 0
  {
    if h == MonBacktrace {
      Backtrace.ReturnsIffReachesZero(env.stack, env.debug, env.ebp, depth);
    } else if h == MonShowmapping && |argv| == 3 {
      Mappings.WalkReports(entries, Strtol.ParseHex(argv[1]), Strtol.ParseHex(argv[2]));
    } else if h == MonSetpermission {
      Permission.SetPermissionWritesOneEntry(argv, entries);
    }
  }

  /** `runcmd` never returns a negative value, so the `monitor` loop, which
      stops when it does, runs until a command halts the kernel. */
  lemma NeverReturnsNegative(s: seq<char>, entries: map<nat, Word>, env: Env, depth: nat)
    requires Tokenizer.NUL in s && StackOk(s, env, depth)
    ensures var o := RunCmdSpec(s, entries, env, depth).0;
      o.status.Returned? ==> o.status.code == 0
  {
    var argv := Tokenizer.Tokens(Tokenizer.Line(s));
    if Tokenizer.Tokenized(s).1.Args? && |argv| > 0 && Lookup(argv[0]).Some? {
      HandlersReturnZero(Table[Lookup(argv[0]).value].func, argv, entries, env, depth);
    }
  }

  /** A line of whitespace only prints nothing and changes nothing. */
  lemma BlankLineDoesNothing(s: seq<char>, entries: map<nat, Word>, env: Env, depth: nat)
    requires Tokenizer.NUL in s
    requires forall j :: 0 <= j < Tokenizer.LineLength(s) ==> Tokenizer.IsSpace(s[j])
    ensures LineHandler(s) == None
    ensures RunCmdSpec(s, entries, env, depth) == (Outcome([], Returned(0)), entries)
  {
    Tokenizer.NoTokensIffBlank(Tokenizer.Line(s));
  }

  /** A line of 16 or more arguments is refused before any command runs. */
  lemma TooManyArgumentsRefused(s: seq<char>, entries: map<nat, Word>, env: Env, depth: nat)
    requires Tokenizer.NUL in s
    requires |Tokenizer.Tokens(Tokenizer.Line(s))| >= Tokenizer.MAXARGS
    ensures LineHandler(s) == None
    ensures RunCmdSpec(s, entries, env, depth) == (Outcome([TooManyArgs(16)], Returned(0)), entries)
  {
  }
}
