/** The trace reader (parser.cpp): one instruction per non-empty line of the form
    `addr;assembly;r0,r1,...,r7,raddr,waddr`, and the classification of each operand
    text into an immediate, a register or a memory address of a given shape and
    width. Stream reads follow `std::getline`; the regular expressions are matched
    as `std::regex_search` does, at the leftmost position where they match. */
module Parser {
  import opened Wrappers
  import opened Word
  import Hex
  import opened Core

  // ---------------------------------------------------------------- std::getline

  /** A string stream: the text not yet read and whether it is still `good()`. */
  datatype Stream = Stream(rest: string, good: bool)

  function Measure(st: Stream): nat {
    |st.rest| + if st.good then 1 else 0
  }

  /** The position of the first `d` in `s`, or `|s|` when there is none. */
  function Upto(s: string, d: char): (n: nat)
    ensures n <= |s| && d !in s[..n]
    ensures n < |s| ==> s[n] == d
  {
    if s == [] || s[0] == d then 0
    else
      var k := Upto(s[1..], d);
      assert s[..k + 1] == [s[0]] + s[1..][..k];
      k + 1
  }

  /** `getline(st, str, d)`: the stream afterwards and the new value of `str`. A
      stream that is no longer good leaves `str` as it was; otherwise `str` is
      cleared and receives the text up to the delimiter, which is consumed.
      Running into the end of the text ends the stream. */
  function Getline(st: Stream, d: char, prev: string): (r: (Stream, string))
    ensures !st.good ==> r == (st, prev)
    ensures st.good ==> d !in r.1 && Measure(r.0) < Measure(st)
    ensures st.good ==> (r.0.good <==> d in st.rest)
    ensures st.good && r.0.good ==> st.rest == r.1 + [d] + r.0.rest
    ensures st.good && !r.0.good ==> st.rest == r.1 && r.0.rest == []
  {
    if !st.good then (st, prev)
    else
      var n := Upto(st.rest, d);
      if n < |st.rest| then
        assert st.rest == st.rest[..n] + [d] + st.rest[n + 1..];
        (Stream(st.rest[n + 1..], true), st.rest[..n])
      else
        assert st.rest[..n] == st.rest;
        (Stream([], false), st.rest)
  }

  /** Reading up to a delimiter that is there yields the text before it. */
  lemma GetlineSplit(a: string, d: char, b: string, prev: string)
    requires d !in a
    ensures Getline(Stream(a + ([d] + b), true), d, prev) == (Stream(b, true), a)
  {
    var s := a + ([d] + b);
    assert s[|a|] == d;
    assert s[..|a|] == a && s[|a| + 1..] == b;
  }

  /** Reading the last field, with no delimiter after it, ends the stream. */
  lemma GetlineLast(a: string, d: char, prev: string)
    requires a != [] && d !in a
    ensures Getline(Stream(a, true), d, prev) == (Stream([], false), a)
  {
  }

  /** `stoul(s, 0, 16)` assigned to a 32-bit field: an unreadable number is an
      uncaught exception, and the value is truncated to 32 bits. */
  function Stoul(s: string): (r: Result<u32>)
    ensures r.Ok? <==> Hex.ParseHex(s).Some?
    ensures r.Ok? ==> r.value == Hex.ParseHex(s).value % MOD32
  {
    match Hex.ParseHex(s)
    case None => Abort("stoul: no hexadecimal number")
    case Some(n) => Ok(Low32(n))
  }

  // ---------------------------------------------------------------- regular expressions

  /** A `[[:digit:]]`. */
  function DigitAt(s: string, p: nat): (r: Option<string>)
    ensures r.Some? ==> p < |s| && r.value == s[p..p + 1]
  {
    if p < |s| && '0' <= s[p] <= '9' then Some(s[p..p + 1]) else None
  }

  /** A `(\+|-)`. */
  function SignAt(s: string, p: nat): (r: Option<string>)
    ensures r.Some? ==> p < |s| && r.value == s[p..p + 1]
  {
    if p < |s| && (s[p] == '+' || s[p] == '-') then Some(s[p..p + 1]) else None
  }

  predicate CharAt(s: string, p: nat, c: char) {
    p < |s| && s[p] == c
  }

  /** `0x[[:xdigit:]]+`: the run of digits is as long as it can be. */
  function HexAt(s: string, p: nat): (r: Option<string>)
    ensures r.Some? ==> p + |r.value| <= |s| && r.value == s[p..p + |r.value|] && |r.value| >= 3
  {
    if p + 2 < |s| && s[p] == '0' && s[p + 1] == 'x' && Hex.IsHexDigit(s[p + 2]) then
      Some(s[p..p + 2 + Hex.DigitRun(s[p + 2..])])
    else None
  }

  /** An alternation of names that all have `n` letters, such as
      `eax|ebx|ecx|edx|esi|edi|esp|ebp`: at most one of them matches here. */
  function NameAt(s: string, p: nat, n: nat, names: string -> bool): (r: Option<string>)
    ensures r.Some? ==> p + n <= |s| && r.value == s[p..p + n] && names(r.value)
  {
    if p + n <= |s| && names(s[p..p + n]) then Some(s[p..p + n]) else None
  }

  /** The register alternatives of the address patterns. */
  predicate AddrReg(s: string) {
    s in GeneralRegs
  }

  function RegAt(s: string, p: nat): (r: Option<string>)
    ensures r.Some? ==> p + 3 <= |s| && r.value == s[p..p + 3] && r.value in GeneralRegs
  {
    NameAt(s, p, 3, AddrReg)
  }

  /** A line terminator, which `.` does not match. */
  predicate LineTerminator(c: char) {
    c == Newline || c == 13 as char || c == 0x2028 as char || c == 0x2029 as char
  }

  /** The number of characters at the front of `t` that `.` matches. */
  function DotRun(t: string): (n: nat)
    ensures n <= |t| && forall k | 0 <= k < n :: !LineTerminator(t[k])
    ensures n < |t| ==> LineTerminator(t[n])
  {
    if t == [] || LineTerminator(t[0]) then 0 else DotRun(t[1..]) + 1
  }

  /** The line separator of the trace file. */
  const Newline: char := 10 as char

  /** The closing bracket of a memory operand. */
  const Close: char := 93 as char

  /** The last closing bracket of `t`. */
  function LastClose(t: string): (r: Option<nat>)
    ensures r.Some? ==> r.value < |t| && t[r.value] == Close && forall k | r.value < k < |t| :: t[k] != Close
    ensures r.None? ==> forall k | 0 <= k < |t| :: t[k] != Close
  {
    if t == [] then None
    else if t[|t| - 1] == Close then Some(|t| - 1)
    else LastClose(t[..|t| - 1])
  }

  /** `(.*)\]` from `q`: the greedy `.*` runs to the last `]` before a line
      terminator. The result is the position of that `]`. */
  function CloseAt(s: string, q: nat): (r: Option<nat>)
    requires q <= |s|
    ensures r.Some? ==> q <= r.value < |s| && s[r.value] == Close
  {
    var t := s[q..];
    match LastClose(t[..DotRun(t)])
    case None => None
    case Some(k) => Some(q + k)
  }

  /** The regular expressions of the parser. `Ptr(w, _)` is `w ptr \[(.*)\]` (with
      `w` empty for the bare `ptr \[(.*)\]`), and `SegPtr` is
      `dword ptr (fs|gs):\[(.*)\]`. `Ptr(w, true)` only matches where `w` is a whole
      word, not the tail of a longer one. */
  datatype Pattern =
    | Addr1 | Addr2 | Addr3 | Addr4 | Addr5 | Addr6 | Addr7
    | Immediate | Reg8 | Reg16 | Reg32
    | Ptr(width: string, wordStart: bool) | SegPtr

  predicate IsLetter(c: char) {
    ('a' <= c <= 'z') || ('A' <= c <= 'Z')
  }

  /** The text `w ptr [` that a `Ptr(w)` pattern starts with. */
  function PtrPrefix(w: string): string {
    if w == "" then "ptr [" else w + " ptr ["
  }

  /** `R\*D` (shape 3). */
  function Scaled(s: string, p: nat): (r: Option<seq<string>>)
  {
    var r := RegAt(s, p);
    var d := DigitAt(s, p + 4);
    if r.Some? && CharAt(s, p + 3, '*') && d.Some? then Some([s[p..p + 5], r.value, d.value]) else None
  }

  /** `R(\+|-)H` (shape 4). */
  function Displaced(s: string, p: nat): (r: Option<seq<string>>)
  {
    var r := RegAt(s, p);
    var g := SignAt(s, p + 3);
    var h := HexAt(s, p + 4);
    if r.Some? && g.Some? && h.Some? then
      Some([s[p..p + 4 + |h.value|], r.value, g.value, h.value])
    else None
  }

  /** `R\+R\*D` (shape 5). */
  function Indexed(s: string, p: nat): (r: Option<seq<string>>)
  {
    var r1 := RegAt(s, p);
    var r2 := RegAt(s, p + 4);
    var d := DigitAt(s, p + 8);
    if r1.Some? && CharAt(s, p + 3, '+') && r2.Some? && CharAt(s, p + 7, '*') && d.Some? then
      Some([s[p..p + 9], r1.value, r2.value, d.value])
    else None
  }

  /** `R\*D(\+|-)H` (shape 6). */
  function ScaledDisplaced(s: string, p: nat): (r: Option<seq<string>>)
  {
    var r := RegAt(s, p);
    var d := DigitAt(s, p + 4);
    var g := SignAt(s, p + 5);
    var h := HexAt(s, p + 6);
    if r.Some? && CharAt(s, p + 3, '*') && d.Some? && g.Some? && h.Some? then
      Some([s[p..p + 6 + |h.value|], r.value, d.value, g.value, h.value])
    else None
  }

  /** `R\+R\*D(\+|-)H` (shape 7). */
  function IndexedDisplaced(s: string, p: nat): (r: Option<seq<string>>)
  {
    var r1 := RegAt(s, p);
    var r2 := RegAt(s, p + 4);
    var d := DigitAt(s, p + 8);
    var g := SignAt(s, p + 9);
    var h := HexAt(s, p + 10);
    if r1.Some? && CharAt(s, p + 3, '+') && r2.Some? && CharAt(s, p + 7, '*') && d.Some? && g.Some? && h.Some? then
      Some([s[p..p + 10 + |h.value|], r1.value, r2.value, d.value, g.value, h.value])
    else None
  }

  /** `w ptr \[(.*)\]`. */
  function PtrAt(w: string, wordStart: bool, s: string, p: nat): (r: Option<seq<string>>)
  {
    var pre := PtrPrefix(w);
    if p + |pre| <= |s| && s[p..p + |pre|] == pre && (wordStart ==> p == 0 || !IsLetter(s[p - 1])) then
      match CloseAt(s, p + |pre|)
      case None => None
      case Some(e) => Some([s[p..e + 1], s[p + |pre|..e]])
    else None
  }

  /** `dword ptr (fs|gs):\[(.*)\]`. */
  function SegPtrAt(s: string, p: nat): (r: Option<seq<string>>)
  {
    if p + 14 <= |s| && s[p..p + 10] == "dword ptr " && (s[p + 10..p + 12] == "fs" || s[p + 10..p + 12] == "gs")
       && s[p + 12..p + 14] == ":[" then
      match CloseAt(s, p + 14)
      case None => None
      case Some(e) => Some([s[p..e + 1], s[p + 10..p + 12], s[p + 14..e]])
    else None
  }

  /** A one-token pattern: the token is the whole match. */
  function Token(t: Option<string>): (r: Option<seq<string>>)
    ensures r.Some? ==> t.Some? && r.value == [t.value]
  {
    if t.Some? then Some([t.value]) else None
  }

  /** Does the pattern match at position `p`? The result is the `smatch` vector:
      the whole match, then the groups. */
  function MatchAt(pat: Pattern, s: string, p: nat): (r: Option<seq<string>>)
  {
    match pat
    case Addr1 | Immediate => Token(HexAt(s, p))
    case Addr2 => Token(RegAt(s, p))
    case Addr3 => Scaled(s, p)
    case Addr4 => Displaced(s, p)
    case Addr5 => Indexed(s, p)
    case Addr6 => ScaledDisplaced(s, p)
    case Addr7 => IndexedDisplaced(s, p)
    case Reg8 => Token(NameAt(s, p, 2, IsReg8))
    case Reg16 => Token(NameAt(s, p, 2, IsReg16))
    case Reg32 => Token(NameAt(s, p, 3, IsReg32))
    case Ptr(w, wordStart) => PtrAt(w, wordStart, s, p)
    case SegPtr => SegPtrAt(s, p)
  }

  /** `regex_search` from position `p` on. */
  function SearchFrom(pat: Pattern, s: string, p: nat): (r: Option<seq<string>>)
    requires p <= |s|
    decreases |s| - p
  {
    if MatchAt(pat, s, p).Some? then MatchAt(pat, s, p)
    else if p == |s| then None
    else SearchFrom(pat, s, p + 1)
  }

  /** `regex_search(s, m, pat)`: the match at the leftmost position where there is one. */
  function Search(pat: Pattern, s: string): (r: Option<seq<string>>)
  {
    SearchFrom(pat, s, 0)
  }

  /** The search finds the match at the leftmost matching position, and nothing
      when the pattern matches nowhere. */
  lemma {:induction false} SearchLeftmost(pat: Pattern, s: string, p: nat)
    requires p <= |s|
    ensures SearchFrom(pat, s, p).None? <==> forall q | p <= q <= |s| :: MatchAt(pat, s, q).None?
    ensures SearchFrom(pat, s, p).Some? ==>
              exists q | p <= q <= |s| :: SearchFrom(pat, s, p) == MatchAt(pat, s, q) &&
                forall j | p <= j < q :: MatchAt(pat, s, j).None?
    decreases |s| - p
  {
    hide MatchAt;
    if MatchAt(pat, s, p).None? && p < |s| {
      SearchLeftmost(pat, s, p + 1);
      if SearchFrom(pat, s, p).Some? {
        var q :| p + 1 <= q <= |s| && SearchFrom(pat, s, p + 1) == MatchAt(pat, s, q) &&
                 forall j | p + 1 <= j < q :: MatchAt(pat, s, j).None?;
        assert forall j | p <= j < q :: MatchAt(pat, s, j).None?;
      }
    }
  }

  // ---------------------------------------------------------------- operands

  /** The address shapes in the order `createAddrOperand` tries them: the longer
      shapes first, so that a shape is not taken for a part of a longer one. */
  const AddrOrder: seq<Pattern> := [Addr7, Addr4, Addr5, Addr6, Addr3, Addr1, Addr2]

  /** The `tag` of an address shape. */
  function Tag(pat: Pattern): int {
    match pat
    case Addr1 => 1
    case Addr2 => 2
    case Addr3 => 3
    case Addr4 => 4
    case Addr5 => 5
    case Addr6 => 6
    case Addr7 => 7
    case _ => 0
  }

  /** The first pattern of `order` that occurs in `s`. */
  function FirstFound(order: seq<Pattern>, s: string): (r: Option<Pattern>)
    ensures r.Some? ==> r.value in order && Search(r.value, s).Some?
  {
    if order == [] then None
    else if Search(order[0], s).Some? then Some(order[0])
    else FirstFound(order[1..], s)
  }

  /** `m[i]`: a group the match does not have reads as empty text. */
  function Group(m: seq<string>, i: nat): string {
    if i < |m| then m[i] else ""
  }

  /** `field[0..5)` set from groups `1..n` of a match, the other slots left empty. */
  function Fields(m: seq<string>, n: nat): (f: seq<string>)
    ensures |f| == 5 && forall k | 0 <= k < 5 :: f[k] == if k < n then Group(m, k + 1) else ""
  {
    seq(5, k requires 0 <= k < 5 => if k < n then Group(m, k + 1) else "")
  }

  /** `field[0] = m[0]`, the other slots left empty. */
  function Whole(m: seq<string>): (f: seq<string>)
    ensures |f| == 5 && f[0] == Group(m, 0) && forall k | 1 <= k < 5 :: f[k] == ""
  {
    [Group(m, 0), "", "", "", ""]
  }

  /** `createAddrOperand(s)`: the first address shape found, tried in the order
      7, 4, 5, 6, 3, 1, 2, sets the tag and, from the match groups (the whole match
      for shapes 1 and 2), the fields. Text of no known shape gives an operand
      with no type. */
  function CreateAddrOperand(s: string): (o: Operand)
    ensures |o.field| == 5 && !o.issegaddr && o.bit == 0
    ensures o.ty == Mem || o == DefaultOperand()
  {
    var d := DefaultOperand();
    var m7 := Search(Addr7, s);
    if m7.Some? then d.(ty := Mem, tag := 7, field := Fields(m7.value, 5)) else
    var m4 := Search(Addr4, s);
    if m4.Some? then d.(ty := Mem, tag := 4, field := Fields(m4.value, 3)) else
    var m5 := Search(Addr5, s);
    if m5.Some? then d.(ty := Mem, tag := 5, field := Fields(m5.value, 3)) else
    var m6 := Search(Addr6, s);
    if m6.Some? then d.(ty := Mem, tag := 6, field := Fields(m6.value, 4)) else
    var m3 := Search(Addr3, s);
    if m3.Some? then d.(ty := Mem, tag := 3, field := Fields(m3.value, 2)) else
    var m1 := Search(Addr1, s);
    if m1.Some? then d.(ty := Mem, tag := 1, field := Whole(m1.value)) else
    var m2 := Search(Addr2, s);
    if m2.Some? then d.(ty := Mem, tag := 2, field := Whole(m2.value)) else
    d
  }

  /** The first address shape found, spelled out. */
  function FirstAddrShape(s: string): Option<Pattern> {
    if Search(Addr7, s).Some? then Some(Addr7)
    else if Search(Addr4, s).Some? then Some(Addr4)
    else if Search(Addr5, s).Some? then Some(Addr5)
    else if Search(Addr6, s).Some? then Some(Addr6)
    else if Search(Addr3, s).Some? then Some(Addr3)
    else if Search(Addr1, s).Some? then Some(Addr1)
    else if Search(Addr2, s).Some? then Some(Addr2)
    else None
  }

  lemma FirstFoundAddr(s: string)
    ensures FirstFound(AddrOrder, s) == FirstAddrShape(s)
  {
    hide Search, FirstFound;
    var o := AddrOrder;
    FirstFoundCons(o, s);
    FirstFoundCons(o[1..], s);
    FirstFoundCons(o[2..], s);
    FirstFoundCons(o[3..], s);
    FirstFoundCons(o[4..], s);
    FirstFoundCons(o[5..], s);
    FirstFoundCons(o[6..], s);
    FirstFoundCons(o[7..], s);
    assert o[1..][1..] == o[2..] && o[2..][1..] == o[3..] && o[3..][1..] == o[4..];
    assert o[4..][1..] == o[5..] && o[5..][1..] == o[6..] && o[6..][1..] == o[7..];
  }

  lemma FirstFoundCons(order: seq<Pattern>, s: string)
    ensures order == [] ==> FirstFound(order, s) == None
    ensures order != [] ==>
              FirstFound(order, s) == if Search(order[0], s).Some? then Some(order[0]) else FirstFound(order[1..], s)
  {
    hide Search;
  }

  lemma AddrTagOfShape(s: string)
    ensures var o := CreateAddrOperand(s);
            && (FirstAddrShape(s).Some? ==> o.ty == Mem && o.tag == Tag(FirstAddrShape(s).value))
            && (FirstAddrShape(s).None? ==> o == DefaultOperand())
  {
    hide Search, Fields, DefaultOperand;
  }

  /** The tag is that of the first shape, in the fixed order, that occurs in the
      text, and the operand is a memory operand exactly when some shape occurs. */
  lemma AddrTagIsFirstShape(s: string)
    ensures var o := CreateAddrOperand(s);
            && (FirstFound(AddrOrder, s).Some? ==> o.ty == Mem && o.tag == Tag(FirstFound(AddrOrder, s).value))
            && (FirstFound(AddrOrder, s).None? ==> o == DefaultOperand())
  {
    hide Search, Fields, DefaultOperand, CreateAddrOperand, FirstAddrShape, FirstFound;
    FirstFoundAddr(s);
    AddrTagOfShape(s);
  }

  /** The width and type of a data operand, by the first of these that occurs: a
      32-bit register, a 16-bit register, an 8-bit register, an immediate. */
  const DataOrder: seq<Pattern> := [Reg32, Reg16, Reg8, Immediate]

  /** `bit` for the data patterns. */
  function DataBit(pat: Pattern): int {
    match pat
    case Reg32 => 32
    case Reg16 => 16
    case Reg8 => 8
    case _ => 32
  }

  /** `createDataOperand(s)`. */
  function CreateDataOperand(s: string): (o: Operand)
    ensures |o.field| == 5 && !o.issegaddr
  {
    var d := DefaultOperand();
    var r32 := Search(Reg32, s);
    if r32.Some? then d.(ty := Reg, bit := 32, field := Whole(r32.value)) else
    var r16 := Search(Reg16, s);
    if r16.Some? then d.(ty := Reg, bit := 16, field := Whole(r16.value)) else
    var r8 := Search(Reg8, s);
    if r8.Some? then d.(ty := Reg, bit := 8, field := Whole(r8.value)) else
    var imm := Search(Immediate, s);
    if imm.Some? then d.(ty := Imm, bit := 32, field := Whole(imm.value)) else
    d
  }

  /** What a name or immediate pattern finds is a name of its class, or a
      hexadecimal literal. */
  lemma MatchedName(pat: Pattern, s: string)
    requires Search(pat, s).Some?
    ensures pat == Reg32 ==> IsReg32(Group(Search(pat, s).value, 0))
    ensures pat == Reg16 ==> IsReg16(Group(Search(pat, s).value, 0))
    ensures pat == Reg8 ==> IsReg8(Group(Search(pat, s).value, 0))
    ensures pat == Immediate ==> var t := Group(Search(pat, s).value, 0); |t| >= 3 && t[..2] == "0x"
  {
    SearchLeftmost(pat, s, 0);
  }

  /** The data operand is a 32-bit register, else a 16-bit register, else an 8-bit
      register, else an immediate, whichever is found first in that order; the name
      or literal found is the first field. */
  lemma DataPriority(s: string)
    ensures var o := CreateDataOperand(s);
            && (Search(Reg32, s).Some? ==> o.ty == Reg && o.bit == 32 && IsReg32(o.field[0]))
            && (Search(Reg32, s).None? && Search(Reg16, s).Some? ==> o.ty == Reg && o.bit == 16 && IsReg16(o.field[0]))
            && (Search(Reg32, s).None? && Search(Reg16, s).None? && Search(Reg8, s).Some? ==>
                  o.ty == Reg && o.bit == 8 && IsReg8(o.field[0]))
            && (Search(Reg32, s).None? && Search(Reg16, s).None? && Search(Reg8, s).None? && Search(Immediate, s).Some? ==>
                  o.ty == Imm && o.bit == 32 && |o.field[0]| >= 3 && o.field[0][..2] == "0x")
            && ((forall pat | pat in DataOrder :: Search(pat, s).None?) ==> o == DefaultOperand())
  {
    var o := CreateDataOperand(s);
    if Search(Reg32, s).Some? {
      MatchedName(Reg32, s);
    } else if Search(Reg16, s).Some? {
      MatchedName(Reg16, s);
    } else if Search(Reg8, s).Some? {
      MatchedName(Reg8, s);
    } else if Search(Immediate, s).Some? {
      MatchedName(Immediate, s);
    } else {
      assert forall pat | pat in DataOrder :: Search(pat, s).None?;
    }
  }

  /** `s.find(t) != string::npos`. */
  predicate Contains(s: string, t: string)
    decreases |s|
  {
    |t| <= |s| && (s[..|t|] == t || Contains(s[1..], t))
  }

  lemma {:induction false} ContainsAt(s: string, t: string, p: nat)
    requires p + |t| <= |s| && s[p..p + |t|] == t
    ensures Contains(s, t)
    decreases p
  {
    if p > 0 {
      assert s[1..][p - 1..p - 1 + |t|] == t;
      ContainsAt(s[1..], t, p - 1);
    }
  }

  /** A match of a width-qualified `w ptr [...]` pattern is also a match of the bare
      `ptr [...]` pattern, further on. */
  lemma PtrIsBare(w: string, wordStart: bool, s: string)
    requires w != "" && Search(Ptr(w, wordStart), s).Some?
    ensures Search(Ptr("", false), s).Some?
  {
    hide MatchAt, SearchFrom;
    SearchLeftmost(Ptr(w, wordStart), s, 0);
    var q :| 0 <= q <= |s| && MatchAt(Ptr(w, wordStart), s, q).Some?;
    assert q + |w| + 1 <= |s| && MatchAt(Ptr("", false), s, q + |w| + 1).Some? by {
      PtrMatch(w, wordStart, s, q);
      BareInside(w, wordStart, s, q);
    }
    var b := q + |w| + 1;
    SearchLeftmost(Ptr("", false), s, 0);
    assert !(forall j | 0 <= j <= |s| :: MatchAt(Ptr("", false), s, j).None?) by {
      assert 0 <= b <= |s| && MatchAt(Ptr("", false), s, b).Some?;
    }
    assert Search(Ptr("", false), s) == SearchFrom(Ptr("", false), s, 0);
  }

  lemma PtrMatch(w: string, wordStart: bool, s: string, q: nat)
    ensures MatchAt(Ptr(w, wordStart), s, q) == PtrAt(w, wordStart, s, q)
  {
  }

  lemma BareInside(w: string, wordStart: bool, s: string, q: nat)
    requires w != "" && PtrAt(w, wordStart, s, q).Some?
    ensures q + |w| + 1 <= |s| && MatchAt(Ptr("", false), s, q + |w| + 1).Some?
  {
    hide CloseAt;
    var pre := w + " ptr [";
    var b := q + |w| + 1;
    assert s[q..q + |pre|] == pre;
    assert s[b..b + 5] == s[q..q + |pre|][|w| + 1..] by {
      assert s[q..q + |pre|][|w| + 1..] == s[b..q + |pre|];
    }
    assert pre[|w| + 1..] == "ptr [";
    assert b + 5 == q + |pre|;
  }

  /** `createOperand(s)`. Text containing `ptr` is a memory operand whose address
      is read by `createAddrOperand` from the bracketed part: a `dword ptr fs:[...]`
      or `gs:` access is a 32-bit segment access, and otherwise the width is 32 for
      `dword ptr`, 16 for `word ptr`, 8 for `byte ptr` and 32 for any other
      `ptr`. Text containing `ptr` but none of these forms leaves the returned
      operand pointer unset. Any other text is a data operand. With `wordStart`,
      a width keyword only counts as a whole word; the source matches it anywhere. */
  function Classify(s: string, wordStart: bool): (r: Result<Operand>)
    ensures !Contains(s, "ptr") ==> r.Ok? && r.value.ty != Mem && !r.value.issegaddr
    ensures r.Abort? <==> Contains(s, "ptr") && Search(SegPtr, s).None? && Search(Ptr("", false), s).None?
    ensures Contains(s, "ptr") && r.Ok? ==>
              && r.value.ty != Reg && r.value.ty != Imm
              && (r.value.issegaddr <==> Search(SegPtr, s).Some?)
              && (r.value.bit == 32 || r.value.bit == 16 || r.value.bit == 8)
  {
    if !Contains(s, "ptr") then Ok(CreateDataOperand(s))
    else
      var seg := Search(SegPtr, s);
      if seg.Some? then
        Ok(CreateAddrOperand(Group(seg.value, 2)).(issegaddr := true, bit := 32, segreg := Group(seg.value, 1)))
      else
        var dw := Search(Ptr("dword", wordStart), s);
        if dw.Some? then PtrIsBare("dword", wordStart, s); Ok(CreateAddrOperand(Group(dw.value, 1)).(bit := 32)) else
        var w := Search(Ptr("word", wordStart), s);
        if w.Some? then PtrIsBare("word", wordStart, s); Ok(CreateAddrOperand(Group(w.value, 1)).(bit := 16)) else
        var b := Search(Ptr("byte", wordStart), s);
        if b.Some? then PtrIsBare("byte", wordStart, s); Ok(CreateAddrOperand(Group(b.value, 1)).(bit := 8)) else
        var any := Search(Ptr("", false), s);
        if any.Some? then Ok(CreateAddrOperand(Group(any.value, 1)).(bit := 32))
        else Abort("unknown address: the returned operand pointer is never set")
  }

  /** `createOperand(s)` as written: `regex_search` finds `word ptr [` inside
      `qword ptr [`, and `byte ptr [` inside `tbyte ptr [`. */
  function CreateOperandAsWritten(s: string): (r: Result<Operand>)
    ensures r.Ok? && r.value.bit == 16 && Contains(s, "ptr") ==> Search(Ptr("word", false), s).Some?
  {
    Classify(s, false)
  }

  /** `createOperand(s)` with the width keywords read as whole words. */
  function CreateOperand(s: string): (r: Result<Operand>)
    ensures r.Ok? && r.value.bit == 16 && Contains(s, "ptr") ==> Search(Ptr("word", true), s).Some?
    ensures r.Ok? && r.value.bit == 8 && Contains(s, "ptr") ==> Search(Ptr("byte", true), s).Some?
  {
    Classify(s, true)
  }

  /** An address operand takes the first form found in the order segment access,
      `dword ptr`, `word ptr`, `byte ptr`, bare `ptr`; a segment access and a
      `dword ptr` one are 32 bits wide, `word ptr` 16, `byte ptr` 8 and a bare `ptr`
      32, and the address is read from the bracketed part of the form found. */
  lemma AddrPriority(s: string, wordStart: bool)
    requires Contains(s, "ptr")
    ensures var r := Classify(s, wordStart);
            var seg := Search(SegPtr, s);
            var dw := Search(Ptr("dword", wordStart), s);
            var w := Search(Ptr("word", wordStart), s);
            var b := Search(Ptr("byte", wordStart), s);
            var any := Search(Ptr("", false), s);
            && (seg.Some? ==> r.Ok? && r.value.issegaddr && r.value.bit == 32 &&
                                r.value.segreg == Group(seg.value, 1) &&
                                r.value.field == CreateAddrOperand(Group(seg.value, 2)).field)
            && (seg.None? && dw.Some? ==> r == Ok(CreateAddrOperand(Group(dw.value, 1)).(bit := 32)))
            && (seg.None? && dw.None? && w.Some? ==> r == Ok(CreateAddrOperand(Group(w.value, 1)).(bit := 16)))
            && (seg.None? && dw.None? && w.None? && b.Some? ==>
                  r == Ok(CreateAddrOperand(Group(b.value, 1)).(bit := 8)))
            && (seg.None? && dw.None? && w.None? && b.None? ==>
                  (r.Ok? <==> any.Some?) && (any.Some? ==> r == Ok(CreateAddrOperand(Group(any.value, 1)).(bit := 32))))
  {
  }

  /** No match anywhere: nothing is found. */
  lemma Nowhere(pat: Pattern, s: string)
    requires forall q | 0 <= q <= |s| :: MatchAt(pat, s, q).None?
    ensures Search(pat, s).None?
  {
    SearchLeftmost(pat, s, 0);
  }

  /** The first match is found. */
  lemma Reach(pat: Pattern, s: string, q: nat)
    requires q <= |s| && MatchAt(pat, s, q).Some?
    requires forall j | 0 <= j < q :: MatchAt(pat, s, j).None?
    ensures Search(pat, s) == MatchAt(pat, s, q)
  {
    hide MatchAt;
    SearchLeftmost(pat, s, 0);
    assert SearchFrom(pat, s, 0).Some?;
    var q' :| 0 <= q' <= |s| && SearchFrom(pat, s, 0) == MatchAt(pat, s, q') &&
              forall j | 0 <= j < q' :: MatchAt(pat, s, j).None?;

  }

  /** A `ptr` pattern does not match where a character differs from its text. */
  lemma PtrMisses(w: string, wordStart: bool, s: string, q: nat, k: nat)
    requires k < |PtrPrefix(w)| && q + k < |s| && s[q + k] != PtrPrefix(w)[k]
    ensures MatchAt(Ptr(w, wordStart), s, q).None?
  {
    var pre := PtrPrefix(w);
    if q + |pre| <= |s| {
      assert s[q..q + |pre|][k] == s[q + k];
    }
  }

  lemma SegPtrMisses(s: string, q: nat, k: nat)
    requires k < 10 && q + k < |s| && s[q + k] != "dword ptr "[k]
    ensures MatchAt(SegPtr, s, q).None?
  {
    if q + 14 <= |s| {
      assert s[q..q + 10][k] == s[q + k];
    }
  }

  /** The operand text of the example below. */
  const Qword := "qword ptr [eax]"

  lemma QwordClose()
    ensures CloseAt(Qword, 11) == Some(14)
  {
    var t := Qword[11..];
    assert t == "eax]";
    assert DotRun(t) == 4 by {
      assert t[1..] == "ax]" && t[2..] == "x]" && t[3..] == "]" && t[4..] == "";
    }
    assert t[..4] == t;
  }

  lemma QwordNoSegment()
    ensures Search(SegPtr, Qword).None?
  {
    var s := Qword;
    forall q | 0 <= q <= |s| ensures MatchAt(SegPtr, s, q).None? {
      if q <= 1 { SegPtrMisses(s, q, 0); }
    }
    Nowhere(SegPtr, s);
  }

  lemma QwordNoDword(wordStart: bool)
    ensures Search(Ptr("dword", wordStart), Qword).None?
  {
    var s := Qword;
    forall q | 0 <= q <= |s| ensures MatchAt(Ptr("dword", wordStart), s, q).None? {
      if q == 4 { PtrMisses("dword", wordStart, s, q, 1); }
      else if q < 4 { PtrMisses("dword", wordStart, s, q, 0); }
    }
    Nowhere(Ptr("dword", wordStart), s);
  }

  /** The pieces of the example text. */
  lemma QwordPieces()
    ensures Qword[1..11] == PtrPrefix("word") && Qword[6..11] == PtrPrefix("")
    ensures Qword[1..15] == PtrPrefix("word") + "eax" + [Close] && Qword[6..15] == PtrPrefix("") + "eax" + [Close]
    ensures Qword[11..14] == "eax"
  {
  }

  /** A `ptr` pattern matches where its text is followed by a closing bracket. */
  lemma PtrHit(w: string, wordStart: bool, s: string, p: nat, e: nat)
    requires p + |PtrPrefix(w)| <= |s| && s[p..p + |PtrPrefix(w)|] == PtrPrefix(w)
    requires wordStart ==> p == 0 || !IsLetter(s[p - 1])
    requires CloseAt(s, p + |PtrPrefix(w)|) == Some(e)
    ensures e < |s| && MatchAt(Ptr(w, wordStart), s, p) == Some([s[p..e + 1], s[p + |PtrPrefix(w)|..e]])
  {
  }

  /** The tail of `qword` is found as `word`. */
  lemma QwordHasWord()
    ensures Search(Ptr("word", false), Qword) == Some([PtrPrefix("word") + "eax" + [Close], "eax"])
  {
    var s := Qword;
    PtrMisses("word", false, s, 0, 0);
    QwordClose();
    QwordPieces();
    PtrHit("word", false, s, 1, 14);
    Reach(Ptr("word", false), s, 1);
  }

  /** The `word` inside `qword` does not start a word. */
  lemma QwordNoWholeWord()
    ensures Search(Ptr("word", true), Qword).None?
  {
    var s := Qword;
    forall q | 0 <= q <= |s| ensures MatchAt(Ptr("word", true), s, q).None? {
      if q != 1 && q <= 5 { PtrMisses("word", true, s, q, 0); }
    }
    Nowhere(Ptr("word", true), s);
  }

  lemma QwordNoByte()
    ensures Search(Ptr("byte", true), Qword).None?
  {
    var s := Qword;
    forall q | 0 <= q <= |s| ensures MatchAt(Ptr("byte", true), s, q).None? {
      if q <= 5 { PtrMisses("byte", true, s, q, 0); }
    }
    Nowhere(Ptr("byte", true), s);
  }

  lemma QwordHasPtr()
    ensures Search(Ptr("", false), Qword) == Some([PtrPrefix("") + "eax" + [Close], "eax"])
  {
    var s := Qword;
    forall q | 0 <= q < 6 ensures MatchAt(Ptr("", false), s, q).None? {
      PtrMisses("", false, s, q, 0);
    }
    QwordClose();
    QwordPieces();
    PtrHit("", false, s, 6, 14);
    Reach(Ptr("", false), s, 6);
  }

  /** As written, a 64-bit `qword ptr [eax]` operand is taken for a 16-bit one. */
  lemma QwordAsWritten()
    ensures CreateOperandAsWritten(Qword) == Ok(CreateAddrOperand("eax").(bit := 16))
  {
    hide CreateAddrOperand, Search, Contains;
    ContainsAt(Qword, "ptr", 6);
    QwordNoSegment();
    QwordNoDword(false);
    QwordHasWord();
  }

  /** With whole-word keywords, `qword ptr [eax]` falls to the generic `ptr` form,
      which is 32 bits wide. */
  lemma QwordCorrected()
    ensures CreateOperand(Qword) == Ok(CreateAddrOperand("eax").(bit := 32))
  {
    hide CreateAddrOperand, Search, Contains;
    ContainsAt(Qword, "ptr", 6);
    QwordNoSegment();
    QwordNoDword(true);
    QwordNoWholeWord();
    QwordNoByte();
    QwordHasPtr();
  }

  // ---------------------------------------------------------------- parseOperand

  /** `oprd` is an array of three operand pointers. */
  const MAX_OPERANDS := 3

  /** `createOperand` as written on each operand text, in order; an operand that
      cannot be classified ends the run. */
  function ParsedOperands(oprs: seq<string>): (r: Result<seq<Operand>>)
    ensures r.Ok? <==> forall k | 0 <= k < |oprs| :: CreateOperandAsWritten(oprs[k]).Ok?
    ensures r.Ok? ==> |r.value| == |oprs| && forall k | 0 <= k < |oprs| :: r.value[k] == CreateOperandAsWritten(oprs[k]).value
  {
    if oprs == [] then Ok([])
    else
      var o :- CreateOperandAsWritten(oprs[0]);
      var rest :- ParsedOperands(oprs[1..]);
      Ok([o] + rest)
  }

  /** The inner loop of `parseOperand`: `oprd[i] = createOperand(oprs[i])` for every
      operand. A fourth operand is written past the end of `oprd`. */
  function FillOperands(i: Inst): (r: Result<Inst>)
    requires i.oprnum == |i.oprs|
    ensures r.Ok? <==> i.oprnum <= MAX_OPERANDS && forall k | 0 <= k < |i.oprs| :: CreateOperandAsWritten(i.oprs[k]).Ok?
    ensures r.Ok? ==> r.value == i.(oprd := r.value.oprd)
    ensures r.Ok? ==> |r.value.oprd| == i.oprnum &&
                      forall k | 0 <= k < i.oprnum :: r.value.oprd[k] == CreateOperandAsWritten(i.oprs[k]).value
    ensures r.Ok? ==> (r.value.WellFormed() <==> |i.ctxreg| == 8)
  {
    if i.oprnum > MAX_OPERANDS then Abort("oprd[3]: a fourth operand is written past the array")
    else
      var os :- ParsedOperands(i.oprs);
      Ok(i.(oprd := os))
  }

  /** `parseOperand(begin, end)` over a whole trace. */
  function ParseOperands(L: seq<Inst>): (r: Result<seq<Inst>>)
    requires forall k | 0 <= k < |L| :: L[k].oprnum == |L[k].oprs|
    ensures r.Ok? <==> forall k | 0 <= k < |L| :: FillOperands(L[k]).Ok?
    ensures r.Ok? ==> |r.value| == |L| && forall k | 0 <= k < |L| :: r.value[k] == FillOperands(L[k]).value
  {
    if L == [] then Ok([])
    else
      var i :- FillOperands(L[0]);
      var rest :- ParseOperands(L[1..]);
      ParseOperandsCons(L, i, rest);
      Ok([i] + rest)
  }

  /** The step of `ParseOperands`: the head's filling in front of the tail's. */
  lemma ParseOperandsCons(L: seq<Inst>, i: Inst, rest: seq<Inst>)
    requires L != [] && forall k | 0 <= k < |L| :: L[k].oprnum == |L[k].oprs|
    requires FillOperands(L[0]) == Ok(i)
    requires |rest| == |L| - 1 && forall k | 0 <= k < |L| - 1 :: FillOperands(L[1..][k]) == Ok(rest[k])
    ensures forall k | 0 <= k < |L| :: FillOperands(L[k]) == Ok(([i] + rest)[k])
  {
    hide FillOperands;
    forall k | 1 <= k < |L| ensures FillOperands(L[k]) == Ok(([i] + rest)[k]) {
      assert L[1..][k - 1] == L[k];
    }
  }

  /** So a parsed `qword ptr [eax]` operand is a 16-bit access. */
  lemma FillQword(i: Inst)
    requires i.oprnum == 1 && i.oprs == [Qword]
    ensures FillOperands(i) == Ok(i.(oprd := [CreateAddrOperand("eax").(bit := 16)]))
  {
    hide CreateOperandAsWritten, CreateAddrOperand, FillOperands, ParsedOperands;
    QwordAsWritten();
    FillOne(i, CreateAddrOperand("eax").(bit := 16));
  }

  /** A lone operand fills `oprd` with what its text parses to. */
  lemma FillOne(i: Inst, o: Operand)
    requires i.oprnum == 1 && |i.oprs| == 1 && CreateOperandAsWritten(i.oprs[0]) == Ok(o)
    ensures FillOperands(i) == Ok(i.(oprd := [o]))
  {
    hide CreateOperandAsWritten;
    assert i.oprs[1..] == [] && ParsedOperands([]) == Ok([]);
    assert [o] + [] == [o];
    assert ParsedOperands(i.oprs) == Ok([o]);
  }

  // ---------------------------------------------------------------- splitting

  /** The pieces of `s` between the delimiters `d`, empty pieces included: one
      more piece than there are delimiters. */
  function Split(s: string, d: char): (r: seq<string>)
    ensures |r| >= 1 && forall k | 0 <= k < |r| :: d !in r[k]
    decreases |s|
  {
    var n := Upto(s, d);
    if n < |s| then [s[..n]] + Split(s[n + 1..], d) else [s]
  }

  /** The pieces with `d` between them. */
  function Join(xs: seq<string>, d: char): string
    requires xs != []
  {
    if |xs| == 1 then xs[0] else xs[0] + [d] + Join(xs[1..], d)
  }

  lemma {:induction false} UptoAt(a: string, d: char, b: string)
    requires d !in a
    ensures Upto(a + [d] + b, d) == |a|
  {
    if a != [] {
      UptoAt(a[1..], d, b);
      assert (a + [d] + b)[1..] == a[1..] + [d] + b;
    }
  }

  lemma SplitFirst(a: string, d: char, b: string)
    requires d !in a
    ensures Split(a + [d] + b, d) == [a] + Split(b, d)
  {
    var s := a + [d] + b;
    UptoAt(a, d, b);
    assert s[..|a|] == a && s[|a| + 1..] == b;
  }

  /** Splitting undoes joining pieces that hold no delimiter. */
  lemma {:induction false} SplitJoin(xs: seq<string>, d: char)
    requires xs != [] && forall k | 0 <= k < |xs| :: d !in xs[k]
    ensures Split(Join(xs, d), d) == xs
  {
    if |xs| > 1 {
      var t := Join(xs[1..], d);
      assert Join(xs, d) == xs[0] + [d] + t;
      SplitJoin(xs[1..], d);
      SplitFirst(xs[0], d, t);
      assert xs == [xs[0]] + xs[1..];
    }
  }

  /** Joining undoes splitting. */
  lemma {:induction false} JoinSplit(s: string, d: char)
    ensures Join(Split(s, d), d) == s
    decreases |s|
  {
    var n := Upto(s, d);
    if n < |s| {
      JoinSplit(s[n + 1..], d);
      var r := Split(s, d);
      assert r[1..] == Split(s[n + 1..], d);
      assert s == s[..n] + [d] + s[n + 1..];
    }
  }

  /** The pieces a stream still holds for `getline` with delimiter `d`. */
  function Pending(st: Stream, d: char): seq<string> {
    if st.good then Split(st.rest, d) else []
  }

  /** Reading a piece takes the first pending one. */
  lemma GetlinePending(st: Stream, d: char, prev: string)
    requires st.good
    ensures var (st', t) := Getline(st, d, prev);
            Pending(st, d) == [t] + Pending(st', d)
  {
    var (st', t) := Getline(st, d, prev);
    if st'.good {
      UptoAt(t, d, st'.rest);
    }
  }

  // ---------------------------------------------------------------- parseTrace

  /** Does the text hold a character other than a space (`find_first_not_of(' ')`)? */
  predicate HasNonSpace(s: string) {
    exists k | 0 <= k < |s| :: s[k] != ' '
  }

  /** The pieces that hold a character other than a space. */
  function Keep(xs: seq<string>): (r: seq<string>)
    ensures forall k | 0 <= k < |r| :: HasNonSpace(r[k]) && r[k] in xs
  {
    if xs == [] then []
    else if HasNonSpace(xs[0]) then [xs[0]] + Keep(xs[1..])
    else Keep(xs[1..])
  }

  /** Keeping changes nothing when every piece holds a character other than a space. */
  lemma {:induction false} KeepAll(xs: seq<string>)
    requires forall k | 0 <= k < |xs| :: HasNonSpace(xs[k])
    ensures Keep(xs) == xs
  {
    if xs != [] {
      KeepAll(xs[1..]);
    }
  }

  /** The operand loop of `parseTrace`: while `disasbuf` is good, read up to the
      next `,` into `temp`, and keep the piece when it holds a character other than
      a space. The result is the operand texts and the final value of `temp`. */
  function OperandTexts(db: Stream, temp: string): (r: (seq<string>, string))
    decreases Measure(db)
  {
    if !db.good then ([], temp)
    else
      var (db', t) := Getline(db, ',', temp);
      var (rest, last) := OperandTexts(db', t);
      (if HasNonSpace(t) then [t] + rest else rest, last)
  }

  /** The operand texts are the `,`-separated pieces of the text after the
      mnemonic that hold a character other than a space. */
  lemma {:induction false} OperandTextsArePieces(db: Stream, temp: string)
    ensures OperandTexts(db, temp).0 == Keep(Pending(db, ','))
    decreases Measure(db)
  {
    if db.good {
      var (db', t) := Getline(db, ',', temp);
      GetlinePending(db, ',', temp);
      OperandTextsArePieces(db', t);
      assert ([t] + Pending(db', ','))[1..] == Pending(db', ',');
    }
  }

  /** `n` times `getline(strbuf, temp, ','); field = stoul(temp, 0, 16)`. A read
      from a stream that has ended leaves `temp` as it was, so the number read last
      is read again. */
  function ReadFields(st: Stream, temp: string, n: nat): (r: Result<seq<u32>>)
    ensures r.Ok? ==> |r.value| == n
    decreases n
  {
    if n == 0 then Ok([])
    else
      var (st', t) := Getline(st, ',', temp);
      var v :- Stoul(t);
      var vs :- ReadFields(st', t, n - 1);
      Ok([v] + vs)
  }

  /** The context registers and the two memory addresses of a line. */
  const FIELDS := 10

  /** The body of the `parseTrace` loop for one non-empty line: the address up to
      the first `;`, the disassembly up to the second, split into the mnemonic (up
      to the first space) and the operand texts, then eight context registers, the
      read address and the write address, each up to a `,`. `opc` and `oprd` are
      filled in later. */
  function ParseLine(line: string, id: int): (r: Result<Inst>)
    ensures r.Ok? ==> r.value.id == id && r.value.opc == 0 && r.value.oprd == []
    ensures r.Ok? ==> r.value.oprnum == |r.value.oprs| && |r.value.ctxreg| == 8
    ensures r.Ok? ==> ' ' !in r.value.opcstr && ';' !in r.value.addr
    ensures r.Ok? ==> forall k | 0 <= k < |r.value.oprs| :: HasNonSpace(r.value.oprs[k]) && ',' !in r.value.oprs[k]
  {
    var (st1, addr) := Getline(Stream(line, true), ';', "");
    var addrn :- Stoul(addr);
    var (st2, disas) := Getline(st1, ';', "");
    var (db, opcstr) := Getline(Stream(disas, true), ' ', "");
    var (oprs, temp) := OperandTexts(db, "");
    OperandTextsArePieces(db, "");
    var fs :- ReadFields(st2, temp, FIELDS);
    Ok(Inst(id, addr, addrn, disas, 0, opcstr, oprs, |oprs|, [], fs[..8], fs[8], fs[9], [], [], [], []))
  }

  /** `parseTrace(infile, L)` from the current position of the file: empty lines are
      skipped, the others numbered from `num` on. */
  function ParseTraceFrom(f: Stream, num: int): (r: Result<seq<Inst>>)
    decreases Measure(f)
  {
    if !f.good then Ok([])
    else
      var (f', line) := Getline(f, Newline, "");
      if line == [] then ParseTraceFrom(f', num)
      else
        var ins :- ParseLine(line, num);
        var rest :- ParseTraceFrom(f', num + 1);
        Ok([ins] + rest)
  }

  /** `parseTrace` on a whole file; instruction ids start at 1. */
  function ParseTrace(text: string): Result<seq<Inst>> {
    ParseTraceFrom(Stream(text, true), 1)
  }

  /** The lines that are not empty. */
  function NonEmpty(ls: seq<string>): (r: seq<string>)
    ensures forall k | 0 <= k < |r| :: r[k] != [] && r[k] in ls
  {
    if ls == [] then []
    else if ls[0] != [] then [ls[0]] + NonEmpty(ls[1..])
    else NonEmpty(ls[1..])
  }

  /** `ParseLine` on each line in turn, the ids counting up from `num`. */
  function ParseLines(ls: seq<string>, num: int): Result<seq<Inst>> {
    if ls == [] then Ok([])
    else
      var i :- ParseLine(ls[0], num);
      var rest :- ParseLines(ls[1..], num + 1);
      Ok([i] + rest)
  }

  /** Line `k` becomes the instruction with id `num + k`; the first line that does
      not parse ends the run. */
  lemma {:induction false} ParseLinesEach(ls: seq<string>, num: int)
    ensures ParseLines(ls, num).Ok? <==> forall k | 0 <= k < |ls| :: ParseLine(ls[k], num + k).Ok?
    ensures ParseLines(ls, num).Ok? ==>
              var L := ParseLines(ls, num).value;
              |L| == |ls| && forall k | 0 <= k < |ls| :: L[k] == ParseLine(ls[k], num + k).value
  {
    hide ParseLine;
    if ls != [] {
      var tl := ls[1..];
      ParseLinesEach(tl, num + 1);
      assert forall k | 1 <= k < |ls| :: ls[k] == tl[k - 1] && num + k == num + 1 + (k - 1);
      if ParseLine(ls[0], num).Ok? && ParseLines(tl, num + 1).Ok? {
        var L := ParseLines(ls, num).value;
        assert L == [ParseLine(ls[0], num).value] + ParseLines(tl, num + 1).value;
      }
    }
  }

  /** Reading the file line by line is parsing its non-empty `\n`-separated lines,
      numbered consecutively. */
  lemma {:induction false} TraceIsLines(f: Stream, num: int)
    ensures ParseTraceFrom(f, num) == ParseLines(NonEmpty(Pending(f, Newline)), num)
    decreases Measure(f)
  {
    hide ParseLine;
    if f.good {
      var (f', line) := Getline(f, Newline, "");
      GetlinePending(f, Newline, "");
      TraceIsLines(f', if line == [] then num else num + 1);
      assert ([line] + Pending(f', Newline))[1..] == Pending(f', Newline);
    }
  }

  /** Lines that each parse to an instruction parse together to those instructions. */
  lemma ParseLinesAll(ls: seq<string>, num: int, L: seq<Inst>)
    requires |ls| == |L| && forall k | 0 <= k < |ls| :: ParseLine(ls[k], num + k) == Ok(L[k])
    ensures ParseLines(ls, num) == Ok(L)
  {
    hide ParseLine, ParseLines;
    ParseLinesEach(ls, num);
    assert ParseLines(ls, num).value == L;
  }

  /** The parsed trace holds one instruction per non-empty line, with ids 1, 2, ...
      in line order, each with its operand count and eight context registers. */
  lemma TraceIds(text: string)
    requires ParseTrace(text).Ok?
    ensures var L := ParseTrace(text).value;
            && |L| == |NonEmpty(Split(text, Newline))|
            && forall k | 0 <= k < |L| :: L[k].id == k + 1 && L[k].oprnum == |L[k].oprs| && |L[k].ctxreg| == 8
  {
    TraceIsLines(Stream(text, true), 1);
    ParseLinesEach(NonEmpty(Split(text, Newline)), 1);
  }

  /** Once the line has run out, every further field repeats the number read last. */
  lemma {:induction false} ReadFieldsStale(rest: string, temp: string, n: nat)
    requires Stoul(temp).Ok?
    ensures var r := ReadFields(Stream(rest, false), temp, n);
            r.Ok? && forall k | 0 <= k < n :: r.value[k] == Stoul(temp).value
  {
    if n > 0 {
      ReadFieldsStale(rest, temp, n - 1);
    }
  }

  // ---------------------------------------------------------------- the trace format

  /** Each number in hex followed by a comma. */
  function Csv(vs: seq<u32>): string {
    if vs == [] then "" else Hex.ToHex(vs[0]) + [','] + Csv(vs[1..])
  }

  lemma CsvCons(vs: seq<u32>, tail: string)
    requires vs != []
    ensures Csv(vs) + tail == Hex.ToHex(vs[0]) + ([','] + (Csv(vs[1..]) + tail))
    ensures ',' !in Hex.ToHex(vs[0])
  {
    var h, c := Hex.ToHex(vs[0]), Csv(vs[1..]);
    assert Csv(vs) == h + [','] + c;
    hide Csv, Hex.ToHex;
    ConcatAssoc(h, [','], c, tail);
    Hex.NoComma(h);
  }

  lemma ConcatAssoc(a: string, b: string, c: string, d: string)
    ensures a + b + c + d == a + (b + (c + d))
  {
    assert a + b + c + d == a + (b + (c + d));
  }

  lemma ReadFieldsStep(st: Stream, temp: string, n: nat, st': Stream, t: string, v: u32, vs: seq<u32>)
    requires n > 0 && Getline(st, ',', temp) == (st', t) && Stoul(t) == Ok(v)
    requires ReadFields(st', t, n - 1) == Ok(vs)
    ensures ReadFields(st, temp, n) == Ok([v] + vs)
  {
    hide Getline, Stoul;
  }

  /** The comma-separated numbers read back as written. */
  lemma {:induction false} ReadFieldsCsv(vs: seq<u32>, tail: string, temp: string)
    ensures ReadFields(Stream(Csv(vs) + tail, true), temp, |vs|) == Ok(vs)
  {
    if vs != [] {
      ReadFieldsCsv(vs[1..], tail, Hex.ToHex(vs[0]));
      ReadFieldsCsvCons(vs, tail, temp);
    }
  }

  /** One step of `ReadFieldsCsv`: the first number, then the rest as the rest reads. */
  lemma ReadFieldsCsvCons(vs: seq<u32>, tail: string, temp: string)
    requires vs != []
    requires ReadFields(Stream(Csv(vs[1..]) + tail, true), Hex.ToHex(vs[0]), |vs| - 1) == Ok(vs[1..])
    ensures ReadFields(Stream(Csv(vs) + tail, true), temp, |vs|) == Ok(vs)
  {
    hide Csv, Stoul, Hex.ToHex, Hex.ParseHex, ReadFields, Getline;
    var h := Hex.ToHex(vs[0]);
    var more := Csv(vs[1..]) + tail;
    CsvCons(vs, tail);
    Hex.RenderParseBare(vs[0]);
    assert Stoul(h) == Ok(vs[0]);
    GetlineSplit(h, ',', more, temp);
    ReadFieldsStep(Stream(Csv(vs) + tail, true), temp, |vs|, Stream(more, true), h, vs[0], vs[1..]);
    assert vs == [vs[0]] + vs[1..];
  }

  /** The disassembly text: the mnemonic, then a space and the operands separated
      by commas when there are any. */
  function Asm(opc: string, oprs: seq<string>): string {
    if oprs == [] then opc else opc + " " + Join(oprs, ',')
  }

  lemma {:induction false} NotInJoin(xs: seq<string>, d: char, c: char)
    requires xs != [] && c != d && forall k | 0 <= k < |xs| :: c !in xs[k]
    ensures c !in Join(xs, d)
  {
    if |xs| > 1 {
      NotInJoin(xs[1..], d, c);
    }
  }

  /** The text an operand may have: something other than spaces, and none of the
      separators. */
  predicate OperandText(o: string) {
    HasNonSpace(o) && ',' !in o && ';' !in o && Newline !in o
  }

  /** A mnemonic holds no separator. */
  predicate Mnemonic(opc: string) {
    ' ' !in opc && ';' !in opc && Newline !in opc
  }

  /** The disassembly splits back into its mnemonic and operands. */
  lemma AsmRoundTrip(opc: string, oprs: seq<string>)
    requires Mnemonic(opc) && forall k | 0 <= k < |oprs| :: OperandText(oprs[k])
    ensures var (db, o) := Getline(Stream(Asm(opc, oprs), true), ' ', "");
            o == opc && OperandTexts(db, "").0 == oprs
  {
    if oprs == [] {
      var (db, o) := Getline(Stream(opc, true), ' ', "");
      assert !db.good;
      hide Getline, OperandTexts;
      OperandTextsArePieces(db, "");
    } else {
      var j := Join(oprs, ',');
      assert Asm(opc, oprs) == opc + ([' '] + j);
      hide Getline, OperandTexts, Split, Join, Keep;
      GetlineSplit(opc, ' ', j, "");
      OperandTextsArePieces(Stream(j, true), "");
      SplitJoin(oprs, ',');
      KeepAll(oprs);
    }
  }

  lemma AsmSeparators(opc: string, oprs: seq<string>)
    requires Mnemonic(opc) && forall k | 0 <= k < |oprs| :: OperandText(oprs[k])
    ensures ';' !in Asm(opc, oprs) && Newline !in Asm(opc, oprs)
  {
    if oprs != [] {
      NotInJoin(oprs, ',', ';');
      NotInJoin(oprs, ',', Newline);
    }
  }

  /** An instruction as `ParseLine` leaves it, with the text fields in the form the
      tracer writes. */
  predicate Renderable(i: Inst) {
    && i.addr == Hex.ToHex(i.addrn) && i.assembly == Asm(i.opcstr, i.oprs)
    && Mnemonic(i.opcstr) && (forall k | 0 <= k < |i.oprs| :: OperandText(i.oprs[k]))
    && i.opc == 0 && i.oprnum == |i.oprs| && i.oprd == [] && |i.ctxreg| == 8
    && i.src == [] && i.dst == [] && i.src2 == [] && i.dst2 == []
  }

  /** The trace line of an instruction: `addr;assembly;` then the context
      registers, the read address and the write address, each in hex followed by
      a comma. */
  function Render(i: Inst): string {
    Hex.ToHex(i.addrn) + ";" + i.assembly + ";" + Csv(i.ctxreg + [i.raddr, i.waddr])
  }

  /** A rendered line parses back to the instruction it was rendered from. */
  lemma LineRoundTrip(i: Inst)
    requires Renderable(i)
    ensures ParseLine(Render(i), i.id) == Ok(i)
  {
    hide ParseLine, Getline, OperandTexts, ReadFields, Stoul, Csv, Render, Asm;
    var a := Hex.ToHex(i.addrn);
    var fs := i.ctxreg + [i.raddr, i.waddr];
    var c := Csv(fs);
    var st1 := Stream(i.assembly + ([';'] + c), true);
    assert Getline(Stream(Render(i), true), ';', "") == (st1, a) by {
      RenderFields(i);
      assert ';' !in a;
      GetlineSplit(a, ';', i.assembly + ([';'] + c), "");
    }
    assert Getline(st1, ';', "") == (Stream(c, true), i.assembly) by {
      AsmSeparators(i.opcstr, i.oprs);
      GetlineSplit(i.assembly, ';', c, "");
    }
    StoulHex(i.addrn);
    var (db, o) := Getline(Stream(i.assembly, true), ' ', "");
    assert o == i.opcstr && OperandTexts(db, "").0 == i.oprs by {
      AsmRoundTrip(i.opcstr, i.oprs);
    }
    var temp := OperandTexts(db, "").1;
    assert ReadFields(Stream(c, true), temp, FIELDS) == Ok(fs) by {
      assert c + [] == c;
      ReadFieldsCsv(fs, [], temp);
    }
    assert fs[..8] == i.ctxreg;
    ParseLineSteps(Render(i), i.id, st1, a, i.addrn, Stream(c, true), i.assembly, db, i.opcstr, i.oprs, temp, fs);
  }

  lemma RenderFields(i: Inst)
    ensures Render(i) == Hex.ToHex(i.addrn) + ([';'] + (i.assembly + ([';'] + Csv(i.ctxreg + [i.raddr, i.waddr]))))
  {
  }

  /** `ParseLine` from the results of its steps. */
  lemma ParseLineSteps(line: string, id: int, st1: Stream, addr: string, addrn: u32, st2: Stream, disas: string,
                       db: Stream, opcstr: string, oprs: seq<string>, temp: string, fs: seq<u32>)
    requires Getline(Stream(line, true), ';', "") == (st1, addr) && Stoul(addr) == Ok(addrn)
    requires Getline(st1, ';', "") == (st2, disas) && Getline(Stream(disas, true), ' ', "") == (db, opcstr)
    requires OperandTexts(db, "") == (oprs, temp) && ReadFields(st2, temp, FIELDS) == Ok(fs)
    ensures |fs| == FIELDS
    ensures ParseLine(line, id) ==
            Ok(Inst(id, addr, addrn, disas, 0, opcstr, oprs, |oprs|, [], fs[..8], fs[8], fs[9], [], [], [], []))
  {
    hide Getline, Stoul, OperandTexts, ReadFields;
  }

  lemma StoulHex(n: u32)
    ensures Stoul(Hex.ToHex(n)) == Ok(n)
  {
    Hex.RenderParseBare(n);
  }

  /** The file the tracer writes: each rendered line followed by a newline. */
  function TraceText(L: seq<Inst>): string {
    if L == [] then "" else Render(L[0]) + [Newline] + TraceText(L[1..])
  }

  lemma {:induction false} CsvLine(vs: seq<u32>)
    ensures Newline !in Csv(vs)
  {
    if vs != [] {
      CsvLine(vs[1..]);
      assert Newline !in Hex.ToHex(vs[0]);
    }
  }

  /** A rendered line is not empty and holds no newline. */
  lemma RenderLine(i: Inst)
    requires Renderable(i)
    ensures Render(i) != [] && Newline !in Render(i)
  {
    AsmSeparators(i.opcstr, i.oprs);
    CsvLine(i.ctxreg + [i.raddr, i.waddr]);
    assert Newline !in Hex.ToHex(i.addrn);
  }

  /** The lines of `TraceText(L)`, one per instruction. */
  function Rendered(L: seq<Inst>): (r: seq<string>)
    ensures |r| == |L| && forall k | 0 <= k < |L| :: r[k] == Render(L[k])
  {
    seq(|L|, k requires 0 <= k < |L| => Render(L[k]))
  }

  lemma {:induction false} TraceTextLines(L: seq<Inst>)
    requires forall k | 0 <= k < |L| :: Renderable(L[k])
    ensures NonEmpty(Split(TraceText(L), Newline)) == Rendered(L)
  {
    hide Render, Renderable;
    if L != [] {
      var i := L[0];
      var rest := TraceText(L[1..]);
      RenderLine(i);
      assert TraceText(L) == Render(i) + [Newline] + rest;
      assert Rendered(L) == [Render(i)] + Rendered(L[1..]);
      SplitFirst(Render(i), Newline, rest);
      TraceTextLines(L[1..]);
      var ls := Split(TraceText(L), Newline);
      hide Split, TraceText, Rendered;
      assert ls[0] == Render(i) && ls[1..] == Split(rest, Newline);
      assert NonEmpty(ls) == [Render(i)] + NonEmpty(Split(rest, Newline));
    } else {
      assert Split("", Newline) == [""];
    }
  }

  /** A trace written by the tracer parses back to the instructions it was written
      from. */
  lemma TraceRoundTrip(L: seq<Inst>)
    requires forall k | 0 <= k < |L| :: Renderable(L[k]) && L[k].id == k + 1
    ensures ParseTrace(TraceText(L)) == Ok(L)
  {
    var text := TraceText(L);
    assert ParseTrace(text) == ParseTraceFrom(Stream(text, true), 1);
    assert Pending(Stream(text, true), Newline) == Split(text, Newline);
    hide ParseLine, Render, Renderable, TraceText, ParseTraceFrom, ParseLines, Split, NonEmpty, Getline, Rendered,
         ParseTrace, Pending;
    TraceIsLines(Stream(text, true), 1);
    TraceTextLines(L);
    RenderedParse(L);
  }

  /** The rendered lines, numbered from 1, parse back to the instructions. */
  lemma RenderedParse(L: seq<Inst>)
    requires forall k | 0 <= k < |L| :: Renderable(L[k]) && L[k].id == k + 1
    ensures ParseLines(Rendered(L), 1) == Ok(L)
  {
    hide ParseLine, Render, Renderable, ParseLines, Rendered;
    var ls := Rendered(L);
    forall k | 0 <= k < |L| ensures ParseLine(ls[k], 1 + k) == Ok(L[k]) {
      LineRoundTrip(L[k]);
    }
    ParseLinesAll(ls, 1, L);
  }
}
