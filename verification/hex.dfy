/** Hexadecimal text as the source reads it with `std::stoul(s, 0, 16)` and writes it
    with `stringstream << "0x" << hex << n`. */
module Hex {
  import opened Wrappers

  const ULONG_LIMIT: nat := 0x1_0000_0000_0000_0000

  predicate IsHexDigit(c: char) {
    ('0' <= c <= '9') || ('a' <= c <= 'f') || ('A' <= c <= 'F')
  }

  predicate IsSpace(c: char) {
    c == ' ' || c == '\t' || c == '\n' || c == '\r' || c == 11 as char || c == 12 as char
  }

  function DigitValue(c: char): (d: nat)
    requires IsHexDigit(c)
    ensures d < 16
  {
    if '0' <= c <= '9' then (c as int) - ('0' as int)
    else if 'a' <= c <= 'f' then (c as int) - ('a' as int) + 10
    else (c as int) - ('A' as int) + 10
  }

  function DigitChar(d: nat): (c: char)
    requires d < 16
    ensures IsHexDigit(c) && DigitValue(c) == d
  {
    if d < 10 then ('0' as int + d) as char else ('a' as int + d - 10) as char
  }

  predicate AllHex(s: string) {
    forall i :: 0 <= i < |s| ==> IsHexDigit(s[i])
  }

  /** Number of hex digits at the front of `s`. */
  function DigitRun(s: string): (n: nat)
    ensures n <= |s|
    ensures AllHex(s[..n])
    ensures n < |s| ==> !IsHexDigit(s[n])
  {
    if |s| == 0 || !IsHexDigit(s[0]) then 0
    else
      var k := DigitRun(s[1..]);
      assert s[1..][..k] == s[1..k + 1];
      k + 1
  }

  /** The number a run of hex digits spells, most significant digit first. */
  function DigitsValue(s: string): nat
    requires AllHex(s)
  {
    if |s| == 0 then 0 else DigitsValue(s[..|s| - 1]) * 16 + DigitValue(s[|s| - 1])
  }

  function SkipSpace(s: string): (t: string)
    ensures |t| <= |s|
    ensures |t| > 0 ==> !IsSpace(t[0])
  {
    if |s| > 0 && IsSpace(s[0]) then SkipSpace(s[1..]) else s
  }

  /** `std::stoul(s, 0, 16)`: skip white space, an optional `0x`/`0X` prefix when a hex
      digit follows it, then read the longest run of hex digits. `None` is the
      `invalid_argument` (no digit) or `out_of_range` (value above `unsigned long`)
      exception. */
  function ParseHex(s: string): (r: Option<nat>)
    ensures r.Some? ==> r.value < ULONG_LIMIT
  {
    var t := SkipSpace(s);
    var body := if |t| >= 3 && t[0] == '0' && (t[1] == 'x' || t[1] == 'X') && IsHexDigit(t[2])
                then t[2..] else t;
    var n := DigitRun(body);
    if n == 0 then None
    else
      var v := DigitsValue(body[..n]);
      if v < ULONG_LIMIT then Some(v) else None
  }

  /** `stringstream << hex << n`: lower-case digits, no leading zeros. */
  function ToHex(n: nat): (s: string)
    ensures |s| >= 1 && AllHex(s)
    decreases n
  {
    if n < 16 then [DigitChar(n)] else ToHex(n / 16) + [DigitChar(n % 16)]
  }

  lemma {:induction false} ToHexValue(n: nat)
    ensures DigitsValue(ToHex(n)) == n
    decreases n
  {
    if n >= 16 {
      var s := ToHex(n);
      ToHexValue(n / 16);
      assert s[..|s| - 1] == ToHex(n / 16);
    }
  }

  /** What the source writes as `"0x" << hex << n` reads back as `n`. */
  lemma RenderParse(n: nat)
    requires n < ULONG_LIMIT
    ensures ParseHex("0x" + ToHex(n)) == Some(n)
  {
    var s := "0x" + ToHex(n);
    var h := ToHex(n);
    assert SkipSpace(s) == s;
    assert s[2..] == h;
    AllHexRun(h);
    assert h[..|h|] == h;
    ToHexValue(n);
  }

  /** What the source writes as `hex << n`, with no prefix, reads back as `n`. */
  lemma RenderParseBare(n: nat)
    requires n < ULONG_LIMIT
    ensures ParseHex(ToHex(n)) == Some(n)
  {
    var h := ToHex(n);
    assert SkipSpace(h) == h;
    assert !(|h| >= 3 && h[1] == 'x');
    AllHexRun(h);
    assert h[..|h|] == h;
    ToHexValue(n);
  }

  /** Hex text holds no field separator. */
  lemma NoComma(s: string)
    requires AllHex(s)
    ensures ',' !in s
  {
    forall i | 0 <= i < |s| ensures s[i] != ',' {
      assert IsHexDigit(s[i]);
    }
  }

  lemma AllHexRun(s: string)
    requires AllHex(s)
    ensures DigitRun(s) == |s|
  {
    if |s| > 0 {
      AllHexRun(s[1..]);
    }
  }

  // ---------------------------------------------------------------- decimal

  const INT_MAX: int := 0x7fff_ffff

  predicate IsDecDigit(c: char) {
    '0' <= c <= '9'
  }

  /** Number of decimal digits at the front of `s`. */
  function DecRun(s: string): (n: nat)
    ensures n <= |s|
    ensures forall i | 0 <= i < n :: IsDecDigit(s[i])
    ensures n < |s| ==> !IsDecDigit(s[n])
  {
    if |s| == 0 || !IsDecDigit(s[0]) then 0 else 1 + DecRun(s[1..])
  }

  function DecDigit(c: char): (d: nat)
    requires IsDecDigit(c)
    ensures d < 10
  {
    (c as int) - ('0' as int)
  }

  /** The number a run of decimal digits spells, most significant digit first. */
  function DecValue(s: string): nat
    requires forall i | 0 <= i < |s| :: IsDecDigit(s[i])
  {
    if |s| == 0 then 0 else DecValue(s[..|s| - 1]) * 10 + DecDigit(s[|s| - 1])
  }

  /** `std::stoi(s)`: skip white space, an optional sign, then the longest run of
      decimal digits. `None` is the `invalid_argument` (no digit) or `out_of_range`
      (outside `int`) exception. */
  function ParseDec(s: string): (r: Option<int>)
    ensures r.Some? ==> -INT_MAX - 1 <= r.value <= INT_MAX
  {
    var t := SkipSpace(s);
    var neg := |t| > 0 && t[0] == '-';
    var body := if |t| > 0 && (t[0] == '-' || t[0] == '+') then t[1..] else t;
    var n := DecRun(body);
    if n == 0 then None
    else
      var m: int := DecValue(body[..n]);
      var v := if neg then 0 - m else m;
      if -INT_MAX - 1 <= v <= INT_MAX then Some(v) else None
  }

  /** `std::to_string(n)`: decimal digits, no leading zeros. */
  function ToDec(n: nat): (s: string)
    ensures |s| >= 1 && forall i | 0 <= i < |s| :: IsDecDigit(s[i])
    decreases n
  {
    if n < 10 then [('0' as int + n) as char] else ToDec(n / 10) + [('0' as int + n % 10) as char]
  }

  lemma {:induction false} ToDecValue(n: nat)
    ensures DecValue(ToDec(n)) == n
    decreases n
  {
    if n >= 10 {
      var s := ToDec(n);
      ToDecValue(n / 10);
      assert s[..|s| - 1] == ToDec(n / 10);
    }
  }

  lemma {:induction false} AllDecRun(s: string)
    requires forall i | 0 <= i < |s| :: IsDecDigit(s[i])
    ensures DecRun(s) == |s|
    decreases |s|
  {
    if |s| > 0 {
      AllDecRun(s[1..]);
    }
  }

  /** The decimal spelling of `n`, with or without a leading `-`, reads back as the
      signed value exactly when that value fits in an `int`; otherwise `stoi`
      fails. */
  lemma DecRenderParse(n: nat)
    ensures ParseDec(ToDec(n)) == if n <= INT_MAX then Some(n) else None
    ensures ParseDec("-" + ToDec(n)) == if n <= INT_MAX + 1 then Some(0 - n) else None
  {
    hide ParseDec;
    DecParsePlain(n);
    DecParseMinus(n);
  }

  lemma DecParsePlain(n: nat)
    ensures ParseDec(ToDec(n)) == if n <= INT_MAX then Some(n) else None
  {
    var d := ToDec(n);
    hide ToDec;
    assert SkipSpace(d) == d by { assert !IsSpace(d[0]); }
    AllDecRun(d);
    assert d[..|d|] == d;
    ToDecValue(n);
  }

  lemma DecParseMinus(n: nat)
    ensures ParseDec("-" + ToDec(n)) == if n <= INT_MAX + 1 then Some(0 - n) else None
  {
    var d := ToDec(n);
    var m := "-" + d;
    hide ToDec;
    assert SkipSpace(m) == m;
    assert m[1..] == d;
    AllDecRun(d);
    assert d[..|d|] == d;
    ToDecValue(n);
  }

  /** A one-digit scale such as `4` reads as itself, and so does its negation. */
  lemma ParseDecDigit(c: char)
    requires IsDecDigit(c)
    ensures ParseDec([c]) == Some((c as int) - ('0' as int))
    ensures ParseDec(['-', c]) == Some(('0' as int) - (c as int))
  {
    assert SkipSpace([c]) == [c];
    assert SkipSpace(['-', c]) == ['-', c];
    assert DecRun([c]) == 1 by { assert [c][1..] == []; }
    assert ['-', c][1..] == [c];
    assert [c][..1] == [c];
    assert [c][..0] == [];
    assert DecValue([c]) == DecDigit(c);
  }
}
