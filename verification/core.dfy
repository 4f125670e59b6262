/** The byte-granular dependency vocabulary shared by the slicer and the trace tools:
    registers, operands, per-byte `Parameter`s and the instruction record. */
module Core {
  import opened Wrappers
  import opened Word
  import Hex

  /** `AddrRange`: an inclusive pair of 32-bit addresses. */
  datatype AddrRange = AddrRange(first: u32, second: u32)

  /** The `Register` enumeration, in declaration order. */
  datatype Register =
    | EAX | EBX | ECX | EDX | ESI | EDI | ESP | EBP
    | ST0 | ST1 | ST2 | ST3 | ST4 | ST5
    | CS | DS | ES | FS | GS | SS
    | UNK

  /** The enumerator's integer value. */
  function RegOrd(r: Register): (n: nat)
    ensures n <= 20
    ensures n == 20 <==> r == UNK
  {
    match r
    case EAX => 0 case EBX => 1 case ECX => 2 case EDX => 3
    case ESI => 4 case EDI => 5 case ESP => 6 case EBP => 7
    case ST0 => 8 case ST1 => 9 case ST2 => 10 case ST3 => 11
    case ST4 => 12 case ST5 => 13
    case CS => 14 case DS => 15 case ES => 16 case FS => 17 case GS => 18
    case SS => 19
    case UNK => 20
  }

  lemma RegOrdInjective(a: Register, b: Register)
    ensures RegOrd(a) == RegOrd(b) ==> a == b
  {
  }

  /** `Parameter::Type`. */
  datatype ParamType = PImm | PReg | PMem

  function TypeOrd(t: ParamType): nat {
    match t
    case PImm => 0
    case PReg => 1
    case PMem => 2
  }

  /** One byte of data: an immediate (`idx` is its value), byte `idx` of register `reg`,
      or the memory byte at address `idx`. `reg` carries no meaning unless `ty` is
      `PReg`; the C++ leaves it uninitialised for the other types. */
  datatype Parameter = Parameter(ty: ParamType, reg: Register, idx: u32)

  /** `Parameter::operator==`. */
  predicate Eq(a: Parameter, b: Parameter) {
    if a.ty != b.ty then false
    else match a.ty
      case PImm => a.idx == b.idx
      case PReg => a.reg == b.reg && a.idx == b.idx
      case PMem => a.idx == b.idx
  }

  /** `Parameter::operator<`: type first, then `idx` for immediates and memory and
      `(reg, idx)` for registers. */
  predicate Less(a: Parameter, b: Parameter) {
    if TypeOrd(a.ty) < TypeOrd(b.ty) then true
    else if TypeOrd(a.ty) > TypeOrd(b.ty) then false
    else match a.ty
      case PImm => a.idx < b.idx
      case PReg =>
        if RegOrd(a.reg) < RegOrd(b.reg) then true
        else if RegOrd(a.reg) > RegOrd(b.reg) then false
        else a.idx < b.idx
      case PMem => a.idx < b.idx
  }

  /** `Parameter::isIMM`. */
  predicate IsImm(p: Parameter) {
    p.ty == PImm
  }

  /** The representative of a parameter's equivalence class: the meaningless `reg`
      of an immediate or memory byte is normalised away. A `set<Parameter>` ordered
      by `Less` holds at most one parameter per class, so a set of representatives
      models it. */
  function Canon(p: Parameter): (c: Parameter)
    ensures c.ty == p.ty && c.idx == p.idx
    ensures c.ty == PReg ==> c.reg == p.reg
  {
    if p.ty == PReg then p else p.(reg := UNK)
  }

  lemma LessIrreflexive(a: Parameter)
    ensures !Less(a, a)
  {
  }

  lemma {:induction false} LessTransitive(a: Parameter, b: Parameter, c: Parameter)
    requires Less(a, b) && Less(b, c)
    ensures Less(a, c)
  {
    if TypeOrd(a.ty) == TypeOrd(b.ty) == TypeOrd(c.ty) && a.ty == PReg {
      assert RegOrd(a.reg) <= RegOrd(b.reg) <= RegOrd(c.reg);
    }
  }

  /** `==` holds exactly when neither parameter is `<` the other, so the
      equality the slicer's worklist uses agrees with the operator. */
  lemma EqIsEquivalence(a: Parameter, b: Parameter)
    ensures Eq(a, b) <==> !Less(a, b) && !Less(b, a)
  {
    if a.ty == b.ty && a.ty == PReg && RegOrd(a.reg) == RegOrd(b.reg) {
      RegOrdInjective(a.reg, b.reg);
    }
  }

  /** Two parameters are `==` exactly when their representatives coincide. */
  lemma EqIffSameCanon(a: Parameter, b: Parameter)
    ensures Eq(a, b) <==> Canon(a) == Canon(b)
  {
  }

  /** Any two parameters are ordered one way or the other, or are `==`. */
  lemma LessTrichotomy(a: Parameter, b: Parameter)
    ensures Less(a, b) || Less(b, a) || Eq(a, b)
  {
    EqIsEquivalence(a, b);
  }

  /** `reg2string`. */
  function Reg2String(r: Register): (s: string)
    ensures s != "unknown" <==> RegOrd(r) < 8
  {
    match r
    case EAX => "eax" case EBX => "ebx" case ECX => "ecx" case EDX => "edx"
    case ESI => "esi" case EDI => "edi" case ESP => "esp" case EBP => "ebp"
    case _ => "unknown"
  }

  const GeneralRegs: seq<string> := ["eax", "ebx", "ecx", "edx", "esi", "edi", "esp", "ebp"]

  predicate IsReg32(s: string) {
    s in {"eax", "ebx", "ecx", "edx", "esi", "edi", "esp", "ebp",
          "st0", "st1", "st2", "st3", "st4", "st5"}
  }

  predicate IsReg16(s: string) {
    s in {"ax", "bx", "cx", "dx", "si", "di", "bp", "cs", "ds", "es", "fs", "gs", "ss"}
  }

  predicate IsReg8(s: string) {
    s in {"al", "ah", "bl", "bh", "cl", "ch", "dl", "dh"}
  }

  predicate IsLow8(s: string) {
    s in {"al", "bl", "cl", "dl"}
  }

  predicate IsHigh8(s: string) {
    s in {"ah", "bh", "ch", "dh"}
  }

  /** The general-purpose sub-registers as the IA-32 register layout defines them
      (section 3.4.1 of the Intel 64 and IA-32 Architectures Software Developer's
      Manual, Vol. 1): the owning 32-bit register and the bit range occupied.
      `sp` and the segment and x87 registers have none here. */
  function SubRegister(s: string): Option<(string, int, int)> {
    if s in GeneralRegs then Some((s, 0, 31))
    else if s == "ax" then Some(("eax", 0, 15))
    else if s == "bx" then Some(("ebx", 0, 15))
    else if s == "cx" then Some(("ecx", 0, 15))
    else if s == "dx" then Some(("edx", 0, 15))
    else if s == "si" then Some(("esi", 0, 15))
    else if s == "di" then Some(("edi", 0, 15))
    else if s == "bp" then Some(("ebp", 0, 15))
    else if s == "al" then Some(("eax", 0, 7))
    else if s == "bl" then Some(("ebx", 0, 7))
    else if s == "cl" then Some(("ecx", 0, 7))
    else if s == "dl" then Some(("edx", 0, 7))
    else if s == "ah" then Some(("eax", 8, 15))
    else if s == "bh" then Some(("ebx", 8, 15))
    else if s == "ch" then Some(("ecx", 8, 15))
    else if s == "dh" then Some(("edx", 8, 15))
    else None
  }

  /** The owner names in the table are the ones the engine spells out: `"e" + s`
      for a 16-bit name and `'e' + s[0] + 'x'` for an 8-bit one. */
  lemma OwnerSpelling(s: string)
    requires SubRegister(s).Some?
    ensures var (o, lo, hi) := SubRegister(s).value;
            && (hi == 31 ==> o == s)
            && (lo == 0 && hi == 15 ==> o == "e" + s)
            && (hi == 7 || lo == 8 ==> |s| == 2 && o == ['e', s[0], 'x'])
  {
  }

  /** Byte positions `lo/8 .. hi/8`. */
  function BytesOf(lo: nat, hi: nat): seq<nat>
    decreases hi + 8 - lo
  {
    if lo / 8 > hi / 8 then [] else [lo / 8] + BytesOf(lo + 8, hi)
  }

  /** `getRegParameter`: the register whose bytes a name denotes and those byte
      indices. Every 32-bit name (x87 included) covers bytes 0-3, every 16-bit name
      (segment registers included) bytes 0-1, `al`..`dl` byte 0 and `ah`..`dh`
      byte 1; only the general-purpose names have a known owner. */
  function GetRegParameter(s: string): (res: (Register, seq<nat>))
    ensures IsReg32(s) ==> res.1 == [0, 1, 2, 3]
    ensures !IsReg32(s) && IsReg16(s) ==> res.1 == [0, 1]
    ensures IsLow8(s) ==> res.1 == [0]
    ensures IsHigh8(s) ==> res.1 == [1]
    ensures !IsReg32(s) && !IsReg16(s) && !IsReg8(s) ==> res == (UNK, [])
    ensures res.0 != UNK <==> SubRegister(s).Some? && s != "sp"
  {
    if IsReg32(s) then
      var r :=
        if s == "eax" then EAX else if s == "ebx" then EBX
        else if s == "ecx" then ECX else if s == "edx" then EDX
        else if s == "esi" then ESI else if s == "edi" then EDI
        else if s == "esp" then ESP else if s == "ebp" then EBP
        else UNK;
      (r, [0, 1, 2, 3])
    else if IsReg16(s) then
      var r :=
        if s == "ax" then EAX else if s == "bx" then EBX
        else if s == "cx" then ECX else if s == "dx" then EDX
        else if s == "si" then ESI else if s == "di" then EDI
        else if s == "bp" then EBP
        else UNK;
      (r, [0, 1])
    else if IsLow8(s) then
      (if s == "al" then EAX else if s == "bl" then EBX else if s == "cl" then ECX else EDX, [0])
    else if IsHigh8(s) then
      (if s == "ah" then EAX else if s == "bh" then EBX else if s == "ch" then ECX else EDX, [1])
    else (UNK, [])
  }

  /** For every general-purpose name, the register `getRegParameter` reports is the
      owner of the IA-32 layout and the byte indices are exactly the bytes of the
      bit range the name occupies in it. */
  lemma GetRegParameterMatchesLayout(s: string)
    requires SubRegister(s).Some?
    ensures var (owner, lo, hi) := SubRegister(s).value;
            Reg2String(GetRegParameter(s).0) == owner &&
            GetRegParameter(s).1 == BytesOf(lo, hi)
  {
    LayoutBytes();
  }

  /** The byte indices of the four bit ranges of the layout. */
  lemma LayoutBytes()
    ensures BytesOf(0, 31) == [0, 1, 2, 3] && BytesOf(0, 15) == [0, 1]
    ensures BytesOf(0, 7) == [0] && BytesOf(8, 15) == [1]
  {
    assert BytesOf(0, 31) == [0] + BytesOf(8, 31);
    assert BytesOf(8, 31) == [1] + BytesOf(16, 31);
    assert BytesOf(16, 31) == [2] + BytesOf(24, 31);
    assert BytesOf(24, 31) == [3] + BytesOf(32, 31);
    assert BytesOf(0, 15) == [0] + BytesOf(8, 15);
    assert BytesOf(8, 15) == [1] + BytesOf(16, 15);
    assert BytesOf(0, 7) == [0] + BytesOf(8, 7);
  }

  /** `Operand::Type`; `Unset` is the value of a default-constructed operand. */
  datatype OprType = Imm | Reg | Mem | Unset

  /** A parsed operand. `field` always has five slots (`string field[5]`). */
  datatype Operand = Operand(ty: OprType, tag: int, bit: int, issegaddr: bool,
                             segreg: string, field: seq<string>)
  {
    /** `field[i]`; the five slots always exist. */
    function Field(i: nat): string {
      if i < |field| then field[i] else ""
    }
  }

  /** `Operand()`: `bit = 0`, `issegaddr = false`, empty strings elsewhere. */
  function DefaultOperand(): (o: Operand)
    ensures o.bit == 0 && !o.issegaddr && o.ty == Unset
    ensures |o.field| == 5 && forall i :: 0 <= i < 5 ==> o.Field(i) == ""
  {
    Operand(Unset, 0, 0, false, "", ["", "", "", "", ""])
  }

  /** One executed instruction of the trace. */
  datatype Inst = Inst(
    id: int, addr: string, addrn: u32, assembly: string,
    opc: int, opcstr: string, oprs: seq<string>, oprnum: int,
    oprd: seq<Operand>, ctxreg: seq<u32>, raddr: u32, waddr: u32,
    src: seq<Parameter>, dst: seq<Parameter>, src2: seq<Parameter>, dst2: seq<Parameter>)
  {
    /** The shape the parser gives every instruction: one parsed operand per operand
        text, and eight context registers. */
    predicate WellFormed() {
      oprnum == |oprs| && |oprd| == oprnum && |ctxreg| == 8
    }
  }

  /** Which of an instruction's four parameter lists an `add*` call appends to. */
  datatype Slot = Src | Dst | Src2 | Dst2

  function Append(i: Inst, slot: Slot, ps: seq<Parameter>): (r: Inst)
    ensures r.src == i.src + (if slot == Src then ps else [])
    ensures r.dst == i.dst + (if slot == Dst then ps else [])
    ensures r.src2 == i.src2 + (if slot == Src2 then ps else [])
    ensures r.dst2 == i.dst2 + (if slot == Dst2 then ps else [])
    ensures r.oprd == i.oprd && r.opcstr == i.opcstr && r.raddr == i.raddr && r.waddr == i.waddr
  {
    match slot
    case Src => i.(src := i.src + ps)
    case Dst => i.(dst := i.dst + ps)
    case Src2 => i.(src2 := i.src2 + ps)
    case Dst2 => i.(dst2 := i.dst2 + ps)
  }

  /** The register bytes a register name contributes. */
  function RegParams(s: string): (ps: seq<Parameter>)
    ensures |ps| == |GetRegParameter(s).1|
    ensures forall k :: 0 <= k < |ps| ==>
              ps[k] == Parameter(PReg, GetRegParameter(s).0, GetRegParameter(s).1[k])
  {
    var (r, ix) := GetRegParameter(s);
    seq(|ix|, k requires 0 <= k < |ix| => Parameter(PReg, r, ix[k]))
  }

  /** The string overloads `addsrc`/`adddst`/`addsrc2`/`adddst2`: what they append.
      Only the source lists accept an immediate, whose text is read with `stoul`
      (base 16) and truncated to 32 bits; any other combination appends nothing. */
  function ByName(slot: Slot, t: ParamType, s: string): (res: Result<seq<Parameter>>)
    ensures res.Abort? <==> t == PImm && (slot == Src || slot == Src2) && Hex.ParseHex(s).None?
    ensures res.Ok? && t == PImm ==>
              |res.value| == (if slot == Src || slot == Src2 then 1 else 0)
    ensures res.Ok? && t == PImm && |res.value| == 1 ==>
              res.value[0].ty == PImm && res.value[0].idx == Hex.ParseHex(s).value % MOD32
    ensures res.Ok? && t == PReg ==> res.value == RegParams(s)
    ensures t == PMem ==> res == Ok([])
  {
    match t
    case PImm =>
      if !(slot == Src || slot == Src2) then Ok([])
      else
        (match Hex.ParseHex(s)
         case None => Abort("stoul: not a hexadecimal number")
         case Some(n) => Ok([Parameter(PImm, UNK, Wrap(n))]))
    case PReg => Ok(RegParams(s))
    case PMem => Ok([])
  }

  /** The `AddrRange` overloads: one parameter per address from `first` to `second`
      inclusive, ascending. The C++ loop counts with a 32-bit index, so it never ends
      when `second` is 0xffffffff. */
  function ByRange(t: ParamType, a: AddrRange): (res: Result<seq<Parameter>>)
    ensures res.Abort? <==> a.second == MOD32 - 1
    ensures res.Ok? ==> |res.value| == (if a.first <= a.second then a.second - a.first + 1 else 0)
    ensures res.Ok? ==> forall k :: 0 <= k < |res.value| ==>
              res.value[k].ty == t && res.value[k].idx == a.first + k
  {
    if a.second == MOD32 - 1 then Abort("address loop never terminates")
    else if a.first > a.second then Ok([])
    else Ok(seq(a.second - a.first + 1, k requires 0 <= k < a.second - a.first + 1 =>
                  Parameter(t, UNK, a.first + k)))
  }

  function AddByName(i: Inst, slot: Slot, t: ParamType, s: string): Result<Inst> {
    var ps :- ByName(slot, t, s);
    Ok(Append(i, slot, ps))
  }

  function AddByRange(i: Inst, slot: Slot, t: ParamType, a: AddrRange): Result<Inst> {
    var ps :- ByRange(t, a);
    Ok(Append(i, slot, ps))
  }

  /** Adding a range's bytes and then asking whether an address is among the new
      parameters is exactly the containment test on the range. */
  lemma ByRangeCovers(t: ParamType, a: AddrRange, x: u32)
    requires a.second < MOD32 - 1
    ensures (exists k :: 0 <= k < |ByRange(t, a).value| && ByRange(t, a).value[k].idx == x)
            <==> a.first <= x <= a.second
  {
    var ps := ByRange(t, a).value;
    if a.first <= x <= a.second {
      assert ps[x - a.first].idx == x;
    }
  }

  /** `a` is `b` with some elements left out. */
  predicate Subsequence(a: seq<Inst>, b: seq<Inst>)
    decreases |b|
  {
    if a == [] then true
    else if b == [] then false
    else (a[0] == b[0] && Subsequence(a[1..], b[1..])) || Subsequence(a, b[1..])
  }

  lemma {:induction false} SubsequenceSelf(a: seq<Inst>)
    ensures Subsequence(a, a)
    decreases |a|
  {
    if a != [] {
      SubsequenceSelf(a[1..]);
    }
  }
}
