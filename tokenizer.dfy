/** The parsing half of `runcmd`: split a NUL-terminated line buffer, in place,
    into whitespace-separated arguments. */
module Tokenizer {
  const NUL: char := '\0'
  /** Size of the argument vector; at most MAXARGS - 1 arguments fit beside the
      null sentinel. */
  const MAXARGS: nat := 16

  /** Membership in WHITESPACE = "\t\r\n ". */
  predicate IsSpace(c: char) {
    c == '\t' || c == '\r' || c == '\n' || c == ' '
  }

  /** strlen: the index of the first NUL, where the C string held in `s` ends. */
  function LineLength(s: seq<char>): (n: nat)
    requires NUL in s
    ensures n < |s| && s[n] == NUL
    ensures forall j :: 0 <= j < n ==> s[j] != NUL
  {
    if s[0] == NUL then 0
    else
      assert s == [s[0]] + s[1..];
      1 + LineLength(s[1..])
  }

  /** The line a buffer holds: its characters before the terminator. */
  function Line(s: seq<char>): seq<char>
    requires NUL in s
  {
    s[..LineLength(s)]
  }

  /** Position j of `line` begins a token: a non-whitespace character at the
      start of the line or right after whitespace. */
  predicate IsStart(line: seq<char>, j: nat)
    requires j < |line|
  {
    !IsSpace(line[j]) && (j == 0 || IsSpace(line[j - 1]))
  }

  /** The token starts among the first k positions of `line`, left to right. */
  function Starts(line: seq<char>, k: nat): seq<nat>
    requires k <= |line|
  {
    if k == 0 then []
    else Starts(line, k - 1) + (if IsStart(line, k - 1) then [k - 1] else [])
  }

  function TokenStarts(line: seq<char>): seq<nat> {
    Starts(line, |line|)
  }

  /** The maximal run of non-whitespace characters of `line` that begins at i. */
  function Run(line: seq<char>, i: nat): (t: seq<char>)
    requires i <= |line|
    ensures i + |t| <= |line| && t == line[i..i + |t|]
    ensures forall j :: 0 <= j < |t| ==> !IsSpace(t[j])
    ensures i + |t| == |line| || IsSpace(line[i + |t|])
    decreases |line| - i
  {
    if i == |line| || IsSpace(line[i]) then [] else [line[i]] + Run(line, i + 1)
  }

  /** The arguments of `line`: the maximal runs, in left-to-right order. */
  function Tokens(line: seq<char>): seq<seq<char>> {
    var st := TokenStarts(line);
    StartsSound(line, |line|);
    seq(|st|, k requires 0 <= k < |st| => Run(line, st[k]))
  }

  /** The buffer `s` once its first k positions have been scanned: every
      whitespace byte among them is overwritten with NUL. */
  function Blank(s: seq<char>, k: nat): seq<char> {
    seq(|s|, j requires 0 <= j < |s| => if j < k && IsSpace(s[j]) then NUL else s[j])
  }

  /** The C string that starts at index i of buffer `b`. */
  function CString(b: seq<char>, i: nat): (r: seq<char>)
    requires i <= |b| && NUL in b[i..]
    decreases |b| - i
  {
    assert b[i..] == [b[i]] + b[i + 1..];
    if b[i] == NUL then [] else [b[i]] + CString(b, i + 1)
  }

  datatype Parse = Args(argv: seq<nat>) | TooMany

  /** What tokenizing buffer `s` leaves in the buffer, and its outcome: with
      fewer than MAXARGS tokens, every whitespace byte of the line is blanked
      and the token starts are returned; otherwise the scan stops at the start
      of the MAXARGS-th token, having blanked the whitespace before it. */
  function Tokenized(s: seq<char>): (seq<char>, Parse)
    requires NUL in s
  {
    var st := TokenStarts(Line(s));
    if |st| < MAXARGS then (Blank(s, LineLength(s)), Args(st))
    else (Blank(s, st[MAXARGS - 1]), TooMany)
  }

  /** The tokenizing loop of `runcmd`. `argv` holds the index of each argument
      in `buf`; the null sentinel after the last argument is implicit in the
      sequence's length. When a 16th argument is met the scan stops there. */
  method Tokenize(buf: array<char>) returns (r: Parse)
    requires NUL in buf[..]
    modifies buf
    ensures Tokenized(old(buf[..])) == (buf[..], r)
  {
    ghost var s := buf[..];
    ghost var n := LineLength(s);
    ghost var line := Line(s);
    var argv: seq<nat> := [];
    var i := 0;
    while true
      invariant 0 <= i <= n
      invariant buf[..] == Blank(s, i)
      invariant argv == Starts(line, i) && |argv| < MAXARGS
      invariant i == 0 || i == n || IsSpace(line[i])
      decreases n - i
    {
      i := SkipSpaces(buf, s, i);
      BlankAt(s, i);
      if buf[i] == NUL {
        break;
      }
      if |argv| == MAXARGS - 1 {
        TokenizedWhenFull(s, i);
        return TooMany;
      }
      argv := argv + [i];
      i := SkipToken(buf, s, i);
    }
    TokenizedWhenDone(s, i);
    return Args(argv);
  }

  /** The scan reached the terminator with fewer than MAXARGS starts. */
  lemma TokenizedWhenDone(s: seq<char>, i: nat)
    requires NUL in s && i <= LineLength(s) && s[i] == NUL
    requires |Starts(Line(s), i)| < MAXARGS
    ensures Tokenized(s) == (Blank(s, i), Args(Starts(Line(s), i)))
  {
  }

  /** The scan met a token start at i after MAXARGS - 1 others. */
  lemma TokenizedWhenFull(s: seq<char>, i: nat)
    requires NUL in s && i < LineLength(s) && !IsSpace(s[i])
    requires i == 0 || IsSpace(s[i - 1])
    requires |Starts(Line(s), i)| == MAXARGS - 1
    ensures Tokenized(s) == (Blank(s, i), TooMany)
  {
    var line := Line(s);
    assert IsStart(line, i);
    assert Starts(line, i + 1) == Starts(line, i) + [i];
    StartsPrefix(line, i + 1, |line|);
  }

  /** The first inner loop of `runcmd`: overwrite whitespace with NUL until
      the terminator or a non-whitespace byte. */
  method SkipSpaces(buf: array<char>, ghost s: seq<char>, i: nat) returns (k: nat)
    requires NUL in s && |s| == buf.Length && i <= LineLength(s)
    requires buf[..] == Blank(s, i)
    modifies buf
    ensures i <= k <= LineLength(s) && buf[..] == Blank(s, k)
    ensures forall j :: i <= j < k ==> IsSpace(s[j])
    ensures k == LineLength(s) || !IsSpace(s[k])
    ensures Starts(Line(s), k) == Starts(Line(s), i)
  {
    ghost var n := LineLength(s);
    k := i;
    while buf[k] != NUL && IsSpace(buf[k])
      invariant i <= k <= n
      invariant buf[..] == Blank(s, k)
      invariant forall j :: i <= j < k ==> IsSpace(s[j])
      invariant Starts(Line(s), k) == Starts(Line(s), i)
      decreases n - k
    {
      BlankStep(s, k);
      buf[k] := NUL;
      k := k + 1;
    }
  }

  /** The second inner loop of `runcmd`, from a token start: step over
      non-whitespace bytes until the terminator or whitespace. */
  method SkipToken(buf: array<char>, ghost s: seq<char>, i: nat) returns (k: nat)
    requires NUL in s && |s| == buf.Length && i < LineLength(s)
    requires buf[..] == Blank(s, i) && IsStart(Line(s), i)
    ensures i < k <= LineLength(s)
    ensures k == LineLength(s) || IsSpace(s[k])
    ensures Starts(Line(s), k) == Starts(Line(s), i) + [i]
    ensures Blank(s, k) == Blank(s, i)
  {
    ghost var n := LineLength(s);
    ghost var line := Line(s);
    k := i;
    while buf[k] != NUL && !IsSpace(buf[k])
      invariant i <= k <= n
      invariant forall j :: i <= j < k ==> !IsSpace(line[j])
      invariant Starts(line, if k == i then i + 1 else k) == Starts(line, i) + [i]
      invariant Blank(s, k) == Blank(s, i)
      decreases n - k
    {
      BlankSkip(s, k);
      k := k + 1;
    }
  }

  /** Position k itself is not yet scanned. */
  lemma BlankAt(s: seq<char>, k: nat)
    requires k < |s|
    ensures |Blank(s, k)| == |s| && Blank(s, k)[k] == s[k]
  {
  }

  /** Scanning past a non-whitespace position blanks nothing. */
  lemma BlankSkip(s: seq<char>, k: nat)
    requires k < |s| && !IsSpace(s[k])
    ensures Blank(s, k) == Blank(s, k + 1)
  {
  }

  /** Blanking one more whitespace position. */
  lemma BlankStep(s: seq<char>, k: nat)
    requires k < |s| && IsSpace(s[k])
    ensures Blank(s, k)[k := NUL] == Blank(s, k + 1)
  {
  }

  /** Scanning further only appends token starts. */
  lemma {:induction false} StartsPrefix(line: seq<char>, k: nat, m: nat)
    requires k <= m <= |line|
    ensures |Starts(line, k)| <= |Starts(line, m)|
    ensures Starts(line, k) == Starts(line, m)[..|Starts(line, k)|]
    decreases m - k
  {
    if k < m {
      StartsPrefix(line, k, m - 1);
    }
  }

  /** Every recorded start is a token start, and the starts are strictly
      increasing. */
  lemma {:induction false} StartsSound(line: seq<char>, k: nat)
    requires k <= |line|
    ensures forall i :: 0 <= i < |Starts(line, k)| ==> Starts(line, k)[i] < k && IsStart(line, Starts(line, k)[i])
    ensures forall i, j :: 0 <= i < j < |Starts(line, k)| ==> Starts(line, k)[i] < Starts(line, k)[j]
  {
    if k > 0 {
      StartsSound(line, k - 1);
    }
  }

  /** Every token start before k is recorded. */
  lemma {:induction false} StartsComplete(line: seq<char>, k: nat, j: nat)
    requires j < k <= |line| && IsStart(line, j)
    ensures j in Starts(line, k)
  {
    if j < k - 1 {
      StartsComplete(line, k - 1, j);
    }
  }

  /** The arguments are exactly the maximal non-whitespace runs of the line,
      each named once, left to right. */
  lemma TokenStartsExact(line: seq<char>)
    ensures forall j: nat :: j in TokenStarts(line) <==> j < |line| && IsStart(line, j)
    ensures forall i, j :: 0 <= i < j < |TokenStarts(line)| ==> TokenStarts(line)[i] < TokenStarts(line)[j]
  {
    StartsSound(line, |line|);
    forall j: nat | j < |line| && IsStart(line, j)
      ensures j in TokenStarts(line)
    {
      StartsComplete(line, |line|, j);
    }
  }

  /** A line yields no argument exactly when it is all whitespace. */
  lemma NoTokensIffBlank(line: seq<char>)
    ensures TokenStarts(line) == [] <==> forall j :: 0 <= j < |line| ==> IsSpace(line[j])
  {
    TokenStartsExact(line);
    if j :| 0 <= j < |line| && !IsSpace(line[j]) {
      var k := StartAtOrBefore(line, j);
      assert k in TokenStarts(line);
    } else if TokenStarts(line) != [] {
      assert TokenStarts(line)[0] in TokenStarts(line);
    }
  }

  /** A non-whitespace character lies in a token that starts at or before it. */
  lemma {:induction false} StartAtOrBefore(line: seq<char>, j: nat) returns (k: nat)
    requires j < |line| && !IsSpace(line[j])
    ensures k <= j && IsStart(line, k)
  {
    if j == 0 || IsSpace(line[j - 1]) {
      k := j;
    } else {
      k := StartAtOrBefore(line, j - 1);
    }
  }

  /** After tokenizing, the C string at each argument's index is exactly that
      argument's token: blanking terminated it in place. */
  lemma {:induction false} CStringOfBlank(s: seq<char>, i: nat)
    requires NUL in s && i <= LineLength(s)
    ensures NUL in Blank(s, LineLength(s))[i..]
    ensures CString(Blank(s, LineLength(s)), i) == Run(Line(s), i)
    decreases LineLength(s) - i
  {
    var n := LineLength(s);
    var b := Blank(s, n);
    assert b[n] == NUL;
    assert b[i..][n - i] == NUL;
    if i < n && !IsSpace(s[i]) {
      CStringOfBlank(s, i + 1);
    }
  }

  /** The C string at index i of `b` is the stretch of `b` up to the next NUL. */
  lemma {:induction false} CStringIsPrefix(b: seq<char>, i: nat)
    requires i <= |b| && NUL in b[i..]
    ensures CString(b, i) == Line(b[i..])
    decreases |b| - i
  {
    assert b[i..] == [b[i]] + b[i + 1..];
    if b[i] != NUL {
      CStringIsPrefix(b, i + 1);
      assert b[i..][1..] == b[i + 1..];
    }
  }

  /** A stretch without whitespace has a single token start, at its head. */
  lemma {:induction false} SingleRunStarts(t: seq<char>, k: nat)
    requires k <= |t| && forall j :: 0 <= j < |t| ==> !IsSpace(t[j])
    ensures Starts(t, k) == if k == 0 then [] else [0]
  {
    if k > 0 {
      SingleRunStarts(t, k - 1);
    }
  }

  /** Feeding a tokenized buffer back to the tokenizer: the blanked whitespace
      now ends the line after the first run, so at most the first argument, and
      only when it began at index 0, is found again. */
  lemma RetokenizeKeepsFirstRun(s: seq<char>)
    requires NUL in s
    ensures NUL in Blank(s, LineLength(s))
    ensures Line(Blank(s, LineLength(s))) == Run(Line(s), 0)
    ensures TokenStarts(Line(Blank(s, LineLength(s)))) == if Run(Line(s), 0) == [] then [] else [0]
  {
    var b := Blank(s, LineLength(s));
    CStringOfBlank(s, 0);
    CStringIsPrefix(b, 0);
    assert b[0..] == b;
    var t := Run(Line(s), 0);
    SingleRunStarts(t, |t|);
  }
}
