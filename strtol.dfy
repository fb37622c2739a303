/** `(uintptr_t)strtol(arg, &ptr, 16)`, the way both paging commands read an
    address. The library routine itself is not part of this model; this is a
    simple specified stand-in: an optional sign, an optional "0x" prefix, then
    the longest run of hex digits, with the value wrapping modulo 2^32 as the
    cast to a 32-bit `uintptr_t` does. */
module Strtol {
  import opened Wrappers
  import opened Mmu

  function HexDigit(c: char): (d: Option<nat>)
    ensures d.Some? ==> d.value < 16
  {
    if '0' <= c <= '9' then Some(c as nat - '0' as nat)
    else if 'a' <= c <= 'f' then Some(c as nat - 'a' as nat + 10)
    else if 'A' <= c <= 'F' then Some(c as nat - 'A' as nat + 10)
    else None
  }

  predicate AllHexDigits(s: string) {
    forall i :: 0 <= i < |s| ==> HexDigit(s[i]).Some?
  }

  /** The value of the leading run of hex digits of `s`, accumulated onto `acc`
      most significant digit first; scanning stops at the first non-digit. */
  function ScanDigits(s: string, acc: nat): nat
  {
    if |s| == 0 then acc
    else match HexDigit(s[0])
      case None => acc
      case Some(d) => ScanDigits(s[1..], acc * 16 + d)
  }

  /** The address `(uintptr_t)strtol(s, &ptr, 16)` denotes, as an integer
      below 2^32. */
  function ParseHex(s: string): (a: nat)
    ensures a < ADDRESS_SPACE
  {
    var neg := |s| > 0 && s[0] == '-';
    var t := if |s| > 0 && (s[0] == '-' || s[0] == '+') then s[1..] else s;
    WrapToRange(ScanDigits(DropHexPrefix(t), 0), neg)
  }

  function DropHexPrefix(t: string): string
  {
    if |t| >= 2 && t[0] == '0' && t[1] == 'x' then t[2..] else t
  }

  /** The long that strtol computed, negated when a '-' was read, reduced
      modulo 2^32 as the cast to a 32-bit unsigned value does. */
  function WrapToRange(v: nat, neg: bool): nat
  {
    var m := v % ADDRESS_SPACE;
    if neg then (ADDRESS_SPACE - m) % ADDRESS_SPACE else m
  }

  /** The lower-case digit for `d`, as `%x` prints it. */
  function DigitChar(d: nat): (c: char)
    requires d < 16
    ensures HexDigit(c) == Some(d)
  {
    if d < 10 then (('0' as nat) + d) as char else (('a' as nat) + d - 10) as char
  }

  /** The `%x` rendering of `n`: hex digits, no leading zeros, "0" for zero. */
  function FormatHex(n: nat): (s: string)
    ensures |s| > 0 && AllHexDigits(s)
  {
    if n < 16 then [DigitChar(n)] else FormatHex(n / 16) + [DigitChar(n % 16)]
  }

  /** Scanning a run of digits and then more text is scanning the rest from the
      value of the run. */
  lemma {:induction false} ScanDigitsAppend(a: string, b: string, acc: nat)
    requires AllHexDigits(a)
    ensures ScanDigits(a + b, acc) == ScanDigits(b, ScanDigits(a, acc))
  {
    if |a| > 0 {
      assert (a + b)[0] == a[0];
      assert (a + b)[1..] == a[1..] + b;
      var d := HexDigit(a[0]).value;
      ScanDigitsAppend(a[1..], b, acc * 16 + d);
    } else {
      assert a + b == b;
    }
  }

  lemma {:induction false} ScanFormat(n: nat)
    ensures ScanDigits(FormatHex(n), 0) == n
  {
    if n >= 16 {
      ScanFormat(n / 16);
      ScanDigitsAppend(FormatHex(n / 16), [DigitChar(n % 16)], 0);
      assert [DigitChar(n % 16)][1..] == [];
    }
  }

  /** An address printed with `%x` (or `0x%x`) and typed back reads as the same
      address. */
  lemma ParseFormatRoundTrip(n: nat)
    requires n < ADDRESS_SPACE
    ensures ParseHex(FormatHex(n)) == n
    ensures ParseHex("0x" + FormatHex(n)) == n
  {
    var f := FormatHex(n);
    ScanFormat(n);
    assert f[0] != '-' && f[0] != '+' by { assert HexDigit(f[0]).Some?; }
    assert DropHexPrefix(f) == f by {
      if |f| >= 2 { assert HexDigit(f[1]).Some?; }
    }
    var g := "0x" + f;
    assert g[0] == '0' && g[1] == 'x' && g[2..] == f;
    assert DropHexPrefix(g) == f;
  }

  /** A minus sign reads as the 32-bit two's complement of the address typed:
      "-1" is 0xffffffff. */
  lemma NegativeWraps(n: nat)
    requires 0 < n < ADDRESS_SPACE
    ensures ParseHex("-" + FormatHex(n)) == ADDRESS_SPACE - n
  {
    var f := FormatHex(n);
    ScanFormat(n);
    var g := "-" + f;
    assert g[0] == '-' && g[1..] == f;
    assert DropHexPrefix(f) == f by {
      if |f| >= 2 { assert HexDigit(f[1]).Some?; }
    }
    assert ScanDigits(DropHexPrefix(g[1..]), 0) == n;
    assert WrapToRange(n, true) == ADDRESS_SPACE - n by {
      assert n % ADDRESS_SPACE == n;
    }
  }
}
