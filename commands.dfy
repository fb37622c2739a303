/** The static command table, the first-match lookup `runcmd` performs on it,
    and `mon_help`, which lists it. */
module Commands {
  import opened Wrappers
  import opened Console

  /** The handler a table entry points to; a tag in place of a function pointer. */
  datatype Handler = MonHelp | MonKerninfo | MonBacktrace | MonShowmapping | MonSetpermission

  datatype Command = Command(name: string, desc: string, func: Handler)

  /** The table in declaration order. The fifth entry is registered under the
      name "setpremission". */
  const Table: seq<Command> := [
    Command("help", "Display this list of commands", MonHelp),
    Command("kerninfo", "Display information about the kernel", MonKerninfo),
    Command("backtrace", "Display backtrack of the call", MonBacktrace),
    Command("showmappings", "Display virtual/linear to physical mapping", MonShowmapping),
    Command("setpremission", "Set permission of page table", MonSetpermission)
  ]

  /** The index of the first entry of `table`, from index i on, whose name is
      exactly `name`, or None when no entry from i on has that name. */
  function FindFrom(table: seq<Command>, name: string, i: nat): (r: Option<nat>)
    requires i <= |table|
    ensures r.Some? ==> i <= r.value < |table| && table[r.value].name == name
    ensures r.Some? ==> forall j :: i <= j < r.value ==> table[j].name != name
    ensures r.None? <==> forall j :: i <= j < |table| ==> table[j].name != name
    decreases |table| - i
  {
    if i == |table| then None
    else if table[i].name == name then Some(i)
    else FindFrom(table, name, i + 1)
  }

  /** The lookup loop of `runcmd`: strcmp against each name in turn. */
  function Lookup(name: string): Option<nat> {
    FindFrom(Table, name, 0)
  }

  /** The `for` loop of `runcmd` that compares `argv[0]` with each name in
      turn and stops at the first match. */
  method LookupCommand(name: string) returns (r: Option<nat>)
    ensures r == Lookup(name)
  {
    var i := 0;
    while i < |Table|
      invariant i <= |Table|
      invariant FindFrom(Table, name, 0) == FindFrom(Table, name, i)
    {
      if Table[i].name == name {
        return Some(i);
      }
      i := i + 1;
    }
    return None;
  }

  /** No two entries share a name, so the first match is the only match. */
  lemma TableNamesDistinct()
    ensures forall i, j :: 0 <= i < j < |Table| ==> Table[i].name != Table[j].name
  {
  }

  /** Typing `setpermission` is an unknown command; only the misspelt name
      reaches the permission editor. */
  lemma SetpermissionIsUnknown()
    ensures Lookup("setpermission") == None
    ensures Lookup("setpremission") == Some(4) && Table[4].func == MonSetpermission
  {
    assert Table[4].name == "setpremission";
    assert "setpermission" != "setpremission" by {
      assert "setpermission"[4] != "setpremission"[4];
    }
  }

  /** What `mon_help` prints: one name/description line per table entry. */
  function Listing(): seq<Line> {
    seq(|Table|, i requires 0 <= i < |Table| => CommandHelp(Table[i].name, Table[i].desc))
  }

  /** `mon_help`: one "<name> - <desc>" line per entry, in declaration order. */
  method Help() returns (out: seq<Line>)
    ensures |out| == |Table|
    ensures forall i :: 0 <= i < |Table| ==> out[i] == CommandHelp(Table[i].name, Table[i].desc)
    ensures out == Listing()
  {
    out := [];
    for i := 0 to |Table|
      invariant |out| == i
      invariant forall k :: 0 <= k < i ==> out[k] == CommandHelp(Table[k].name, Table[k].desc)
    {
      out := out + [CommandHelp(Table[i].name, Table[i].desc)];
    }
  }
}
