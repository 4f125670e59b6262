/** The backward slicer (slicer.cpp): per-opcode assignment of byte parameters to
    each instruction (`buildParameter`) and the worklist pass that keeps the
    instructions the last one depends on (`backslice`). */
module Slicer {
  import opened Wrappers
  import opened Word
  import opened Core
  import Hex

  /** Opcodes with no data-dependency effect: tests, compares, jumps, calls, `ret`. */
  predicate Skipped(opc: string) {
    opc in {
    "test", "jmp", "jz", "jbe", "jo", "jno", "js", "jns", "je", "jne",
    "jnz", "jb", "jnae", "jc", "jnb", "jae",
    "jnc", "jna", "ja", "jnbe", "jl",
    "jnge", "jge", "jnl", "jle", "jng", "jg",
    "jnle", "jp", "jpe", "jnp", "jpo", "jcxz",
    "jecxz", "ret", "cmp", "call"}
  }

  /** The opcodes whose parameters `buildParameter` assigns are not skipped. */
  lemma Handled()
    ensures !Skipped("push") && !Skipped("pop") && !Skipped("mov")
    ensures !Skipped("movzx") && !Skipped("lea") && !Skipped("xchg")
    ensures !Skipped("imul")
  {
  }

  /** `op->bit / 8` on `int`, truncating toward zero. */
  function Nbyte(bit: int): int {
    if bit >= 0 then bit / 8 else -((-bit) / 8)
  }

  /** `AddrRange(base, base + nbyte - 1)` in `ADDR32`. */
  function Span(base: u32, nbyte: int): AddrRange {
    AddrRange(base, Wrap(base + nbyte - 1))
  }

  /** The outcome of assigning one instruction's parameters: `ok` is false where
      `buildParameter` returns 1, and `inst` holds what was appended before that. */
  datatype Built = Built(ok: bool, inst: Inst)

  /** An instruction with its four parameter lists emptied. */
  function Frame(i: Inst): Inst {
    i.(src := [], dst := [], src2 := [], dst2 := [])
  }

  /** `inst` differs from `i` only by parameters appended to its four lists. */
  predicate Extends(i: Inst, inst: Inst) {
    && Frame(inst) == Frame(i)
    && i.src <= inst.src && i.dst <= inst.dst && i.src2 <= inst.src2 && i.dst2 <= inst.dst2
  }

  lemma AppendExtends(i: Inst, slot: Slot, ps: seq<Parameter>)
    ensures Extends(i, Append(i, slot, ps))
  {
  }

  lemma ExtendsTrans(a: Inst, b: Inst, c: Inst)
    requires Extends(a, b) && Extends(b, c)
    ensures Extends(a, c)
  {
  }

  function AddName(i: Inst, slot: Slot, t: ParamType, s: string): (r: Result<Inst>)
    ensures r.Ok? ==> Extends(i, r.value)
  {
    var ps :- ByName(slot, t, s);
    AppendExtends(i, slot, ps);
    Ok(Append(i, slot, ps))
  }

  function AddRange(i: Inst, slot: Slot, t: ParamType, a: AddrRange): (r: Result<Inst>)
    ensures r.Ok? ==> Extends(i, r.value)
  {
    var ps :- ByRange(t, a);
    AppendExtends(i, slot, ps);
    Ok(Append(i, slot, ps))
  }

  /** Two appends in a row. */
  function Then(r: Result<Inst>, f: Inst -> Result<Inst>): Result<Inst> {
    var i :- r; f(i)
  }

  // ---------------------------------------------------------------- buildParameter

  /** `push`: the operand's bytes flow to the stack bytes at the write address. */
  function Push(i: Inst, op0: Operand): (res: Result<Built>)
    ensures res.Ok? ==> Extends(i, res.value.inst)
  {
    var nb := Nbyte(op0.bit);
    if op0.ty == Imm then
      var i1 :- AddName(i, Src, PImm, op0.Field(0));
      var i2 :- AddRange(i1, Dst, PMem, AddrRange(i.waddr, Wrap(i.waddr + 3)));
      ExtendsTrans(i, i1, i2);
      Ok(Built(true, i2))
    else if op0.ty == Reg then
      var i1 :- AddName(i, Src, PReg, op0.Field(0));
      var i2 :- AddRange(i1, Dst, PMem, Span(i.waddr, nb));
      ExtendsTrans(i, i1, i2);
      Ok(Built(true, i2))
    else if op0.ty == Mem then
      var i1 :- AddRange(i, Src, PMem, Span(i.raddr, nb));
      var i2 :- AddRange(i1, Dst, PMem, Span(i.waddr, nb));
      ExtendsTrans(i, i1, i2);
      Ok(Built(true, i2))
    else Ok(Built(false, i))
  }

  /** `pop`: the stack bytes at the read address flow to the operand. */
  function Pop(i: Inst, op0: Operand): (res: Result<Built>)
    ensures res.Ok? ==> Extends(i, res.value.inst)
  {
    var nb := Nbyte(op0.bit);
    if op0.ty == Reg then
      var i1 :- AddRange(i, Src, PMem, Span(i.raddr, nb));
      var i2 :- AddName(i1, Dst, PReg, op0.Field(0));
      ExtendsTrans(i, i1, i2);
      Ok(Built(true, i2))
    else if op0.ty == Mem then
      var i1 :- AddRange(i, Src, PMem, Span(i.raddr, nb));
      var i2 :- AddRange(i1, Dst, PMem, Span(i.waddr, nb));
      ExtendsTrans(i, i1, i2);
      Ok(Built(true, i2))
    else Ok(Built(false, i))
  }

  /** Any other one-operand opcode reads and writes its operand. */
  function Unary(i: Inst, op0: Operand): (res: Result<Built>)
    ensures res.Ok? ==> Extends(i, res.value.inst)
  {
    var nb := Nbyte(op0.bit);
    if op0.ty == Reg then
      var i1 :- AddName(i, Src, PReg, op0.Field(0));
      var i2 :- AddName(i1, Dst, PReg, op0.Field(0));
      ExtendsTrans(i, i1, i2);
      Ok(Built(true, i2))
    else if op0.ty == Mem then
      var i1 :- AddRange(i, Src, PMem, Span(i.raddr, nb));
      var i2 :- AddRange(i1, Dst, PMem, Span(i.waddr, nb));
      ExtendsTrans(i, i1, i2);
      Ok(Built(true, i2))
    else Ok(Built(false, i))
  }

  function One(i: Inst, op0: Operand): (res: Result<Built>)
    ensures res.Ok? ==> Extends(i, res.value.inst)
  {
    if i.opcstr == "push" then Push(i, op0)
    else if i.opcstr == "pop" then Pop(i, op0)
    else Unary(i, op0)
  }

  /** `mov`/`movzx`: the source operand's bytes flow into the destination. */
  function Move(i: Inst, op0: Operand, op1: Operand): (res: Result<Built>)
    ensures res.Ok? ==> Extends(i, res.value.inst)
  {
    if op0.ty == Reg then
      if op1.ty == Unset then Ok(Built(false, i))
      else
        var i1 :-
          if op1.ty == Imm then AddName(i, Src, PImm, op1.Field(0))
          else if op1.ty == Reg then AddName(i, Src, PReg, op1.Field(0))
          else AddRange(i, Src, PMem, Span(i.raddr, Nbyte(op1.bit)));
        var i2 :- AddName(i1, Dst, PReg, op0.Field(0));
        ExtendsTrans(i, i1, i2);
        Ok(Built(true, i2))
    else if op0.ty == Mem then
      if op1.ty == Imm || op1.ty == Reg then
        var i1 :- AddName(i, Src, if op1.ty == Imm then PImm else PReg, op1.Field(0));
        var i2 :- AddRange(i1, Dst, PMem, Span(i.waddr, Nbyte(op0.bit)));
        ExtendsTrans(i, i1, i2);
        Ok(Built(true, i2))
      else Ok(Built(false, i))
    else Ok(Built(false, i))
  }

  /** `lea`: only the base-plus-scaled-index shape (tag 5) is handled; a malformed
      `lea` is only reported. */
  function Lea(i: Inst, op0: Operand, op1: Operand): (res: Result<Built>)
    ensures res.Ok? ==> res.value.ok && Extends(i, res.value.inst)
  {
    if op1.tag == 5 then
      var i1 :- AddName(i, Src, PReg, op1.Field(0));
      var i2 :- AddName(i1, Src, PReg, op1.Field(1));
      var i3 :- AddName(i2, Dst, PReg, op0.Field(0));
      ExtendsTrans(i, i1, i2);
      ExtendsTrans(i, i2, i3);
      Ok(Built(true, i3))
    else Ok(Built(true, i))
  }

  /** `xchg`: the second operand's bytes go to `src`/`dst2` and the first operand's
      to `src2`/`dst`; a memory operand of either side uses the read address. */
  function Xchg(i: Inst, op0: Operand, op1: Operand): (res: Result<Built>)
    ensures res.Ok? ==> Extends(i, res.value.inst)
  {
    if op1.ty != Reg && op1.ty != Mem then Ok(Built(false, i))
    else
      var i1 :-
        if op1.ty == Reg then
          Then(AddName(i, Src, PReg, op1.Field(0)), j => AddName(j, Dst2, PReg, op1.Field(0)))
        else
          var ar := Span(i.raddr, Nbyte(op1.bit));
          Then(AddRange(i, Src, PMem, ar), j => AddRange(j, Dst2, PMem, ar));
      assert Extends(i, i1);
      if op0.ty != Reg && op0.ty != Mem then Ok(Built(false, i1))
      else
        var i2 :-
          if op0.ty == Reg then
            Then(AddName(i1, Src2, PReg, op0.Field(0)), j => AddName(j, Dst, PReg, op0.Field(0)))
          else
            var ar := Span(i.raddr, Nbyte(op0.bit));
            Then(AddRange(i1, Src2, PMem, ar), j => AddRange(j, Dst, PMem, ar));
        assert Extends(i1, i2);
        ExtendsTrans(i, i1, i2);
        Ok(Built(true, i2))
  }

  /** Any other two-operand opcode reads both operands and writes the first; a
      memory destination is taken at the read address. */
  function Generic(i: Inst, op0: Operand, op1: Operand): (res: Result<Built>)
    ensures res.Ok? ==> Extends(i, res.value.inst)
  {
    if op1.ty == Unset then Ok(Built(false, i))
    else
      var i1 :-
        if op1.ty == Imm then AddName(i, Src, PImm, op1.Field(0))
        else if op1.ty == Reg then AddName(i, Src, PReg, op1.Field(0))
        else AddRange(i, Src, PMem, Span(i.raddr, Nbyte(op1.bit)));
      if op0.ty == Reg then
        var i2 :- AddName(i1, Src, PReg, op0.Field(0));
        var i3 :- AddName(i2, Dst, PReg, op0.Field(0));
        ExtendsTrans(i, i1, i2);
        ExtendsTrans(i, i2, i3);
        Ok(Built(true, i3))
      else if op0.ty == Mem then
        var ar := Span(i.raddr, Nbyte(op0.bit));
        var i2 :- AddRange(i1, Src, PMem, ar);
        var i3 :- AddRange(i2, Dst, PMem, ar);
        ExtendsTrans(i, i1, i2);
        ExtendsTrans(i, i2, i3);
        Ok(Built(true, i3))
      else Ok(Built(false, i1))
  }

  function Two(i: Inst, op0: Operand, op1: Operand): (res: Result<Built>)
    ensures res.Ok? ==> Extends(i, res.value.inst)
  {
    if i.opcstr == "mov" || i.opcstr == "movzx" then Move(i, op0, op1)
    else if i.opcstr == "lea" then Lea(i, op0, op1)
    else if i.opcstr == "xchg" then Xchg(i, op0, op1)
    else Generic(i, op0, op1)
  }

  /** Only `imul reg, reg, imm` is handled: three sources, no destination. */
  function Three(i: Inst, op0: Operand, op1: Operand, op2: Operand): (res: Result<Built>)
    ensures res.Ok? ==> Extends(i, res.value.inst)
  {
    if i.opcstr == "imul" && op0.ty == Reg && op1.ty == Reg && op2.ty == Imm then
      var i1 :- AddName(i, Src, PImm, op2.Field(0));
      var i2 :- AddName(i1, Src, PReg, op1.Field(0));
      var i3 :- AddName(i2, Src, PReg, op0.Field(0));
      ExtendsTrans(i, i1, i2);
      ExtendsTrans(i, i2, i3);
      Ok(Built(true, i3))
    else Ok(Built(false, i))
  }

  /** The body of `buildParameter`'s loop for one instruction. */
  function Assign(i: Inst): (res: Result<Built>)
    requires i.WellFormed()
    ensures res.Ok? ==> Extends(i, res.value.inst)
  {
    if Skipped(i.opcstr) || i.oprnum == 0 then Ok(Built(true, i))
    else if i.oprnum == 1 then One(i, i.oprd[0])
    else if i.oprnum == 2 then Two(i, i.oprd[0], i.oprd[1])
    else if i.oprnum == 3 then Three(i, i.oprd[0], i.oprd[1], i.oprd[2])
    else Ok(Built(false, i))
  }

  /** `buildParameter(L)`: assigns parameters instruction by instruction and stops
      with 1 at the first it rejects, leaving the later ones untouched; 0 when all
      were assigned. */
  function BuildParameter(L: seq<Inst>): (res: Result<(int, seq<Inst>)>)
    requires forall k | 0 <= k < |L| :: L[k].WellFormed()
    ensures res.Ok? ==> |res.value.1| == |L| && (res.value.0 == 0 || res.value.0 == 1)
  {
    if L == [] then Ok((0, []))
    else
      var b :- Assign(L[0]);
      if !b.ok then
        assert forall k | 1 <= k < |L| :: Extends(L[k], L[k]);
        Ok((1, [b.inst] + L[1..]))
      else
        var rest :- BuildParameter(L[1..]);
        Ok((rest.0, [b.inst] + rest.1))
  }

  /** The pass changes nothing but the parameter lists, and a pass that returns 0
      assigned every instruction. */
  lemma {:induction false} BuildParameterExtends(L: seq<Inst>)
    requires forall k | 0 <= k < |L| :: L[k].WellFormed()
    requires BuildParameter(L).Ok?
    ensures forall k | 0 <= k < |L| :: Extends(L[k], BuildParameter(L).value.1[k])
    ensures BuildParameter(L).value.0 == 0 ==>
              forall k | 0 <= k < |L| :: Assign(L[k]) == Ok(Built(true, BuildParameter(L).value.1[k]))
  {
    hide Assign;
    if L != [] {
      var b := Assign(L[0]).value;
      if b.ok {
        BuildParameterExtends(L[1..]);
        var out := BuildParameter(L).value.1;
        assert out == [b.inst] + BuildParameter(L[1..]).value.1;
        forall k | 1 <= k < |L|
          ensures Extends(L[k], out[k])
        {
          assert L[k] == L[1..][k - 1];
        }
      } else {
        forall k | 1 <= k < |L|
          ensures Extends(L[k], BuildParameter(L).value.1[k])
        {
          assert BuildParameter(L).value.1[k] == L[k];
        }
      }
    }
  }

  /** A rejection stops the pass: the instructions after the first rejected one keep
      their parameter lists as they were. */
  lemma {:induction false} BuildParameterStops(L: seq<Inst>, j: nat)
    requires forall k | 0 <= k < |L| :: L[k].WellFormed()
    requires j < |L| && Assign(L[j]).Ok? && !Assign(L[j]).value.ok
    requires forall k | 0 <= k < j :: Assign(L[k]).Ok? && Assign(L[k]).value.ok
    ensures BuildParameter(L).Ok? && BuildParameter(L).value.0 == 1
    ensures BuildParameter(L).value.1[j] == Assign(L[j]).value.inst
    ensures BuildParameter(L).value.1[j + 1..] == L[j + 1..]
  {
    hide Assign;
    if j > 0 {
      assert forall k | 0 <= k < j - 1 :: L[1..][k] == L[k + 1];
      BuildParameterStops(L[1..], j - 1);
      assert L[1..][j - 1 + 1..] == L[j + 1..];
    }
  }

  // ---------------------------------------------------------------- per-opcode shapes

  /** An instruction that has not been assigned parameters yet. */
  predicate Fresh(i: Inst) {
    i.src == [] && i.dst == [] && i.src2 == [] && i.dst2 == []
  }

  /** The memory bytes `first..second`, as the list of their addresses. */
  predicate CoversBytes(ps: seq<Parameter>, first: int, last: int) {
    && |ps| == (if first <= last then last - first + 1 else 0)
    && forall k | 0 <= k < |ps| :: ps[k].ty == PMem && ps[k].idx == first + k
  }

  /** Skipped opcodes and operand-less instructions get no parameters. */
  lemma SkipNoParams(i: Inst)
    requires i.WellFormed() && (Skipped(i.opcstr) || i.oprnum == 0)
    ensures Assign(i) == Ok(Built(true, i))
  {
  }

  /** `push reg`: the register's bytes are the source and the `nbyte` stack bytes
      at the write address the destination. */
  lemma PushReg(i: Inst)
    requires i.WellFormed() && Fresh(i) && i.opcstr == "push" && i.oprnum == 1
    requires i.oprd[0].ty == Reg && 8 <= i.oprd[0].bit
    requires i.waddr + Nbyte(i.oprd[0].bit) - 1 < MOD32 - 1
    ensures Assign(i).Ok? && Assign(i).value.ok
    ensures var r := Assign(i).value.inst;
            r.src == RegParams(i.oprd[0].Field(0)) && r.src2 == [] && r.dst2 == [] &&
            CoversBytes(r.dst, i.waddr, i.waddr + Nbyte(i.oprd[0].bit) - 1)
  {
    hide Two, Three, Pop, Unary, Push;
    Handled();
    PushRegBody(i, i.oprd[0]);
  }

  lemma PushRegBody(i: Inst, op0: Operand)
    requires Fresh(i) && op0.ty == Reg && 8 <= op0.bit
    requires i.waddr + Nbyte(op0.bit) - 1 < MOD32 - 1
    ensures Push(i, op0).Ok? && Push(i, op0).value.ok
    ensures var r := Push(i, op0).value.inst;
            r.src == RegParams(op0.Field(0)) && r.src2 == [] && r.dst2 == [] &&
            CoversBytes(r.dst, i.waddr, i.waddr + Nbyte(op0.bit) - 1)
  {
    hide GetRegParameter, Hex.ParseHex;
    var last := i.waddr + Nbyte(op0.bit) - 1;
    assert Span(i.waddr, Nbyte(op0.bit)) == AddrRange(i.waddr, last);
  }

  /** `push imm`: one immediate source and the four stack bytes at the write address. */
  lemma PushImm(i: Inst)
    requires i.WellFormed() && Fresh(i) && i.opcstr == "push" && i.oprnum == 1
    requires i.oprd[0].ty == Imm && Hex.ParseHex(i.oprd[0].Field(0)).Some?
    requires i.waddr + 3 < MOD32 - 1
    ensures Assign(i).Ok? && Assign(i).value.ok
    ensures var r := Assign(i).value.inst;
            |r.src| == 1 && r.src[0].ty == PImm &&
            r.src[0].idx == Hex.ParseHex(i.oprd[0].Field(0)).value % MOD32 &&
            CoversBytes(r.dst, i.waddr, i.waddr + 3)
  {
    hide Two, Three, Pop, Unary, GetRegParameter, Hex.ParseHex;
    Handled();
  }

  /** `mov reg, mem`: the `nbyte` bytes at the read address flow into the register. */
  lemma MovRegMem(i: Inst)
    requires i.WellFormed() && Fresh(i) && i.opcstr in {"mov", "movzx"} && i.oprnum == 2
    requires i.oprd[0].ty == Reg && i.oprd[1].ty == Mem && 8 <= i.oprd[1].bit
    requires i.raddr + Nbyte(i.oprd[1].bit) - 1 < MOD32 - 1
    ensures Assign(i).Ok? && Assign(i).value.ok
    ensures var r := Assign(i).value.inst;
            r.dst == RegParams(i.oprd[0].Field(0)) && r.src2 == [] && r.dst2 == [] &&
            CoversBytes(r.src, i.raddr, i.raddr + Nbyte(i.oprd[1].bit) - 1)
  {
    hide One, Three, Lea, Xchg, Generic, Move;
    Handled();
    MovRegMemBody(i, i.oprd[0], i.oprd[1]);
  }

  lemma MovRegMemBody(i: Inst, op0: Operand, op1: Operand)
    requires Fresh(i) && op0.ty == Reg && op1.ty == Mem && 8 <= op1.bit
    requires i.raddr + Nbyte(op1.bit) - 1 < MOD32 - 1
    ensures Move(i, op0, op1).Ok? && Move(i, op0, op1).value.ok
    ensures var r := Move(i, op0, op1).value.inst;
            r.dst == RegParams(op0.Field(0)) && r.src2 == [] && r.dst2 == [] &&
            CoversBytes(r.src, i.raddr, i.raddr + Nbyte(op1.bit) - 1)
  {
    hide GetRegParameter, Hex.ParseHex;
    var last := i.raddr + Nbyte(op1.bit) - 1;
    assert Span(i.raddr, Nbyte(op1.bit)) == AddrRange(i.raddr, last);
  }

  /** Any other two-operand opcode on two registers reads both and writes the first. */
  lemma GenericRegReg(i: Inst)
    requires i.WellFormed() && Fresh(i) && i.oprnum == 2
    requires !Skipped(i.opcstr) && i.opcstr !in {"mov", "movzx", "lea", "xchg"}
    requires i.oprd[0].ty == Reg && i.oprd[1].ty == Reg
    ensures Assign(i).Ok? && Assign(i).value.ok
    ensures var r := Assign(i).value.inst;
            r.src == RegParams(i.oprd[1].Field(0)) + RegParams(i.oprd[0].Field(0)) &&
            r.dst == RegParams(i.oprd[0].Field(0)) && r.src2 == [] && r.dst2 == []
  {
    hide One, Three, Lea, Xchg, Move, Generic;
    GenericRegRegBody(i, i.oprd[0], i.oprd[1]);
  }

  lemma GenericRegRegBody(i: Inst, op0: Operand, op1: Operand)
    requires Fresh(i) && op0.ty == Reg && op1.ty == Reg
    ensures Generic(i, op0, op1).Ok? && Generic(i, op0, op1).value.ok
    ensures var r := Generic(i, op0, op1).value.inst;
            r.src == RegParams(op1.Field(0)) + RegParams(op0.Field(0)) &&
            r.dst == RegParams(op0.Field(0)) && r.src2 == [] && r.dst2 == []
  {
    var a, b := op0.Field(0), op1.Field(0);
    var i1 := Append(i, Src, RegParams(b));
    var i2 := Append(i1, Src, RegParams(a));
    var i3 := Append(i2, Dst, RegParams(a));
    AddNameReg(i, Src, b);
    AddNameReg(i1, Src, a);
    AddNameReg(i2, Dst, a);
    hide AddName, Append, GetRegParameter, RegParams, Generic;
    GenericRegs(i, op0, op1, i1, i2, i3);
    assert i1.src == RegParams(b) && i1.dst == [] && i1.src2 == [] && i1.dst2 == [];
    assert i2.src == RegParams(b) + RegParams(a) && i2.dst == [] && i2.src2 == [] && i2.dst2 == [];
  }

  /** The path of `Generic` for two register operands. */
  lemma GenericRegs(i: Inst, op0: Operand, op1: Operand, i1: Inst, i2: Inst, i3: Inst)
    requires op0.ty == Reg && op1.ty == Reg
    requires AddName(i, Src, PReg, op1.Field(0)) == Ok(i1)
    requires AddName(i1, Src, PReg, op0.Field(0)) == Ok(i2)
    requires AddName(i2, Dst, PReg, op0.Field(0)) == Ok(i3)
    ensures Generic(i, op0, op1) == Ok(Built(true, i3))
  {
    hide AddName, AddRange, Append, GetRegParameter, RegParams, Hex.ParseHex, Frame, Extends,
      ByName, ByRange, Span, Nbyte;
  }

  /** Appending a register's bytes by name never fails. */
  lemma AddNameReg(i: Inst, slot: Slot, s: string)
    ensures AddName(i, slot, PReg, s) == Ok(Append(i, slot, RegParams(s)))
  {
    hide Append, RegParams;
  }

  /** `push mem`: the `nbyte` bytes at the read address are the source and as many
      stack bytes at the write address the destination. */
  lemma PushMem(i: Inst, op0: Operand)
    requires Fresh(i) && op0.ty == Mem && 8 <= op0.bit
    requires i.raddr + Nbyte(op0.bit) - 1 < MOD32 - 1 && i.waddr + Nbyte(op0.bit) - 1 < MOD32 - 1
    ensures Push(i, op0).Ok? && Push(i, op0).value.ok
    ensures var r := Push(i, op0).value.inst;
            && CoversBytes(r.src, i.raddr, i.raddr + Nbyte(op0.bit) - 1)
            && CoversBytes(r.dst, i.waddr, i.waddr + Nbyte(op0.bit) - 1)
            && r.src2 == [] && r.dst2 == []
  {
    hide GetRegParameter, Hex.ParseHex;
    var n := Nbyte(op0.bit);
    assert Span(i.raddr, n) == AddrRange(i.raddr, i.raddr + n - 1);
    assert Span(i.waddr, n) == AddrRange(i.waddr, i.waddr + n - 1);
  }

  /** `lea reg, [base + index*scale]`: the base and index registers are the sources
      and the destination register the destination; the scale adds nothing. */
  lemma LeaScaled(i: Inst, op0: Operand, op1: Operand)
    requires Fresh(i) && op1.tag == 5
    ensures Lea(i, op0, op1) ==
            Ok(Built(true, i.(src := RegParams(op1.Field(0)) + RegParams(op1.Field(1)),
                              dst := RegParams(op0.Field(0)))))
  {
    var i1 := Append(i, Src, RegParams(op1.Field(0)));
    var i2 := Append(i1, Src, RegParams(op1.Field(1)));
    var i3 := Append(i2, Dst, RegParams(op0.Field(0)));
    AddNameReg(i, Src, op1.Field(0));
    AddNameReg(i1, Src, op1.Field(1));
    AddNameReg(i2, Dst, op0.Field(0));
    hide AddName, Lea, GetRegParameter, RegParams, Frame, Extends;
    LeaPath(i, op0, op1, i1, i2, i3);
    assert i1 == i.(src := RegParams(op1.Field(0))) by { assert [] + RegParams(op1.Field(0)) == RegParams(op1.Field(0)); }
    assert i3 == i.(src := RegParams(op1.Field(0)) + RegParams(op1.Field(1)), dst := RegParams(op0.Field(0))) by {
      assert [] + RegParams(op0.Field(0)) == RegParams(op0.Field(0));
    }
  }

  /** The path of `Lea` for the tag-5 shape. */
  lemma LeaPath(i: Inst, op0: Operand, op1: Operand, i1: Inst, i2: Inst, i3: Inst)
    requires op1.tag == 5
    requires AddName(i, Src, PReg, op1.Field(0)) == Ok(i1)
    requires AddName(i1, Src, PReg, op1.Field(1)) == Ok(i2)
    requires AddName(i2, Dst, PReg, op0.Field(0)) == Ok(i3)
    ensures Lea(i, op0, op1) == Ok(Built(true, i3))
  {
    hide AddName, Append, GetRegParameter, RegParams, Hex.ParseHex, Frame, Extends, ByName;
  }

  /** Any other `lea` is accepted with no parameters. */
  lemma LeaOther(i: Inst, op0: Operand, op1: Operand)
    requires op1.tag != 5
    ensures Lea(i, op0, op1) == Ok(Built(true, i))
  {
  }

  /** `op reg, imm` for any other opcode: the immediate, then the register, are the
      sources, and the register the destination. */
  lemma GenericRegImm(i: Inst, op0: Operand, op1: Operand)
    requires Fresh(i) && op0.ty == Reg && op1.ty == Imm && Hex.ParseHex(op1.Field(0)).Some?
    ensures Generic(i, op0, op1).Ok? && Generic(i, op0, op1).value.ok
    ensures var r := Generic(i, op0, op1).value.inst;
            var a := RegParams(op0.Field(0));
            && |r.src| == 1 + |a| && r.src[1..] == a
            && r.src[0].ty == PImm && r.src[0].idx == Hex.ParseHex(op1.Field(0)).value % MOD32
            && r.dst == a && r.src2 == [] && r.dst2 == []
  {
    var ps := ByName(Src, PImm, op1.Field(0)).value;
    var i1 := Append(i, Src, ps);
    AddNameReg(i1, Src, op0.Field(0));
    AddNameReg(Append(i1, Src, RegParams(op0.Field(0))), Dst, op0.Field(0));
    hide GetRegParameter, RegParams, Hex.ParseHex, Frame, Extends;
    assert (ps + RegParams(op0.Field(0)))[1..] == RegParams(op0.Field(0));
  }

  /** `op mem, reg` for any other opcode: the register and then the `nbyte` bytes at
      the read address are the sources, and the same bytes, still at the read
      address, the destination. */
  lemma GenericMemReg(i: Inst, op0: Operand, op1: Operand)
    requires Fresh(i) && op0.ty == Mem && op1.ty == Reg && 8 <= op0.bit
    requires i.raddr + Nbyte(op0.bit) - 1 < MOD32 - 1
    ensures Generic(i, op0, op1).Ok? && Generic(i, op0, op1).value.ok
    ensures var r := Generic(i, op0, op1).value.inst;
            var b := RegParams(op1.Field(0));
            && |r.src| >= |b| && r.src[..|b|] == b
            && CoversBytes(r.src[|b|..], i.raddr, i.raddr + Nbyte(op0.bit) - 1)
            && CoversBytes(r.dst, i.raddr, i.raddr + Nbyte(op0.bit) - 1)
            && r.src2 == [] && r.dst2 == []
  {
    var n := Nbyte(op0.bit);
    var ar := Span(i.raddr, n);
    assert ar == AddrRange(i.raddr, i.raddr + n - 1);
    var b := RegParams(op1.Field(0));
    var ps := ByRange(PMem, ar).value;
    var i1 := Append(i, Src, b);
    var i2 := Append(i1, Src, ps);
    var i3 := Append(i2, Dst, ps);
    AddNameReg(i, Src, op1.Field(0));
    AddRangeOk(i1, Src, ar);
    AddRangeOk(i2, Dst, ar);
    assert CoversBytes(ps, i.raddr, i.raddr + n - 1);
    assert i3.src == b + ps && i3.dst == ps && i3.src2 == [] && i3.dst2 == [] by {
      assert [] + b == b && [] + ps == ps;
    }
    assert (b + ps)[..|b|] == b && (b + ps)[|b|..] == ps;
    hide Generic, GetRegParameter, RegParams, Hex.ParseHex, Frame, Extends, AddName, AddRange, ByRange, Span, Nbyte,
      Append, CoversBytes;
    GenericMemPath(i, op0, op1, i1, i2, i3);
  }

  /** Appending the bytes of a range that does not end at the top address never
      fails. */
  lemma AddRangeOk(i: Inst, slot: Slot, a: AddrRange)
    requires a.second != MOD32 - 1
    ensures ByRange(PMem, a).Ok?
    ensures AddRange(i, slot, PMem, a) == Ok(Append(i, slot, ByRange(PMem, a).value))
  {
    hide Append, ByRange;
  }

  /** The path of `Generic` for a memory destination and a register source. */
  lemma GenericMemPath(i: Inst, op0: Operand, op1: Operand, i1: Inst, i2: Inst, i3: Inst)
    requires op0.ty == Mem && op1.ty == Reg
    requires AddName(i, Src, PReg, op1.Field(0)) == Ok(i1)
    requires AddRange(i1, Src, PMem, Span(i.raddr, Nbyte(op0.bit))) == Ok(i2)
    requires AddRange(i2, Dst, PMem, Span(i.raddr, Nbyte(op0.bit))) == Ok(i3)
    ensures Generic(i, op0, op1) == Ok(Built(true, i3))
  {
    hide AddName, AddRange, Append, GetRegParameter, RegParams, Hex.ParseHex, Frame, Extends,
      ByName, ByRange, Span, Nbyte;
  }

  /** `op reg, mem` for any other opcode: the `nbyte` bytes at the read address and
      then the register are the sources, and the register the destination. */
  lemma GenericRegMem(i: Inst, op0: Operand, op1: Operand)
    requires Fresh(i) && op0.ty == Reg && op1.ty == Mem && 8 <= op1.bit
    requires i.raddr + Nbyte(op1.bit) - 1 < MOD32 - 1
    ensures Generic(i, op0, op1).Ok? && Generic(i, op0, op1).value.ok
    ensures var r := Generic(i, op0, op1).value.inst;
            var a := RegParams(op0.Field(0));
            && |r.src| == Nbyte(op1.bit) + |a| && r.src[Nbyte(op1.bit)..] == a
            && CoversBytes(r.src[..Nbyte(op1.bit)], i.raddr, i.raddr + Nbyte(op1.bit) - 1)
            && r.dst == a && r.src2 == [] && r.dst2 == []
  {
    var n := Nbyte(op1.bit);
    var ar := Span(i.raddr, n);
    assert ar == AddrRange(i.raddr, i.raddr + n - 1);
    var a := RegParams(op0.Field(0));
    var ps := ByRange(PMem, ar).value;
    AddRangeOk(i, Src, ar);
    assert |ps| == n && CoversBytes(ps, i.raddr, i.raddr + n - 1);
    var i1 := Append(i, Src, ps);
    var i2 := Append(i1, Src, a);
    var i3 := Append(i2, Dst, a);
    AddNameReg(i1, Src, op0.Field(0));
    AddNameReg(i2, Dst, op0.Field(0));
    assert i3.src == ps + a && i3.dst == a && i3.src2 == [] && i3.dst2 == [] by {
      assert [] + ps == ps && [] + a == a;
    }
    hide Generic, GetRegParameter, RegParams, Hex.ParseHex, Frame, Extends, AddName, AddRange, ByRange, Span, Nbyte,
      Append, CoversBytes;
    GenericRegMemPath(i, op0, op1, i1, i2, i3);
    BytesThenRest(ps, a, i.raddr, n);
  }

  /** The bytes of a range followed by other parameters: the first `n` are the bytes. */
  lemma BytesThenRest(ps: seq<Parameter>, a: seq<Parameter>, first: int, n: int)
    requires |ps| == n && CoversBytes(ps, first, first + n - 1)
    ensures |ps + a| == n + |a| && (ps + a)[n..] == a
    ensures CoversBytes((ps + a)[..n], first, first + n - 1)
  {
    assert (ps + a)[..n] == ps;
  }

  /** The path of `Generic` for a register destination and a memory source. */
  lemma GenericRegMemPath(i: Inst, op0: Operand, op1: Operand, i1: Inst, i2: Inst, i3: Inst)
    requires op0.ty == Reg && op1.ty == Mem
    requires AddRange(i, Src, PMem, Span(i.raddr, Nbyte(op1.bit))) == Ok(i1)
    requires AddName(i1, Src, PReg, op0.Field(0)) == Ok(i2)
    requires AddName(i2, Dst, PReg, op0.Field(0)) == Ok(i3)
    ensures Generic(i, op0, op1) == Ok(Built(true, i3))
  {
    hide AddName, AddRange, Append, GetRegParameter, RegParams, Hex.ParseHex, Frame, Extends,
      ByName, ByRange, Span, Nbyte;
  }

  /** `op mem, imm` for any other opcode: the immediate and then the `nbyte` bytes at
      the read address are the sources, and the same bytes the destination. */
  lemma GenericMemImm(i: Inst, op0: Operand, op1: Operand)
    requires Fresh(i) && op0.ty == Mem && op1.ty == Imm && 8 <= op0.bit
    requires Hex.ParseHex(op1.Field(0)).Some?
    requires i.raddr + Nbyte(op0.bit) - 1 < MOD32 - 1
    ensures Generic(i, op0, op1).Ok? && Generic(i, op0, op1).value.ok
    ensures var r := Generic(i, op0, op1).value.inst;
            && |r.src| == 1 + Nbyte(op0.bit)
            && r.src[0].ty == PImm && r.src[0].idx == Hex.ParseHex(op1.Field(0)).value % MOD32
            && CoversBytes(r.src[1..], i.raddr, i.raddr + Nbyte(op0.bit) - 1)
            && CoversBytes(r.dst, i.raddr, i.raddr + Nbyte(op0.bit) - 1)
            && r.src2 == [] && r.dst2 == []
  {
    var n := Nbyte(op0.bit);
    var ar := Span(i.raddr, n);
    assert ar == AddrRange(i.raddr, i.raddr + n - 1);
    var im := ByName(Src, PImm, op1.Field(0)).value;
    var ps := ByRange(PMem, ar).value;
    var i1 := Append(i, Src, im);
    var i2 := Append(i1, Src, ps);
    var i3 := Append(i2, Dst, ps);
    AddRangeOk(i1, Src, ar);
    AddRangeOk(i2, Dst, ar);
    assert CoversBytes(ps, i.raddr, i.raddr + n - 1);
    assert i3.src == im + ps && i3.dst == ps && i3.src2 == [] && i3.dst2 == [] by {
      assert [] + im == im && [] + ps == ps;
    }
    assert (im + ps)[1..] == ps;
    hide Generic, GetRegParameter, RegParams, Hex.ParseHex, Frame, Extends, AddName, AddRange, ByRange, Span, Nbyte,
      Append, CoversBytes;
    GenericMemImmPath(i, op0, op1, i1, i2, i3);
  }

  /** The path of `Generic` for a memory destination and an immediate source. */
  lemma GenericMemImmPath(i: Inst, op0: Operand, op1: Operand, i1: Inst, i2: Inst, i3: Inst)
    requires op0.ty == Mem && op1.ty == Imm
    requires AddName(i, Src, PImm, op1.Field(0)) == Ok(i1)
    requires AddRange(i1, Src, PMem, Span(i.raddr, Nbyte(op0.bit))) == Ok(i2)
    requires AddRange(i2, Dst, PMem, Span(i.raddr, Nbyte(op0.bit))) == Ok(i3)
    ensures Generic(i, op0, op1) == Ok(Built(true, i3))
  {
    hide AddName, AddRange, Append, GetRegParameter, RegParams, Hex.ParseHex, Frame, Extends,
      ByName, ByRange, Span, Nbyte;
  }

  /** A two-operand instruction with an unset source is rejected untouched. */
  lemma GenericUnset(i: Inst, op0: Operand, op1: Operand)
    requires op1.ty == Unset
    ensures Generic(i, op0, op1) == Ok(Built(false, i))
  {
  }

  /** `imul reg, reg, imm` appends to the sources the immediate, then the second
      and the first register's bytes, and adds no destination. */
  lemma ImulThree(i: Inst)
    requires i.WellFormed() && i.oprnum == 3 && i.opcstr == "imul"
    requires i.oprd[0].ty == Reg && i.oprd[1].ty == Reg && i.oprd[2].ty == Imm
    requires Hex.ParseHex(i.oprd[2].Field(0)).Some?
    ensures ByName(Src, PImm, i.oprd[2].Field(0)).Ok?
    ensures Assign(i) ==
            Ok(Built(true, Append(Append(Append(i, Src, ByName(Src, PImm, i.oprd[2].Field(0)).value),
                                         Src, RegParams(i.oprd[1].Field(0))),
                                  Src, RegParams(i.oprd[0].Field(0)))))
  {
    var op0, op1, op2 := i.oprd[0], i.oprd[1], i.oprd[2];
    assert Assign(i) == Three(i, op0, op1, op2) by {
      hide One, Two, Three;
      Handled();
    }
    ImulThreeBody(i, op0, op1, op2);
  }

  lemma ImulThreeBody(i: Inst, op0: Operand, op1: Operand, op2: Operand)
    requires i.opcstr == "imul" && op0.ty == Reg && op1.ty == Reg && op2.ty == Imm
    requires Hex.ParseHex(op2.Field(0)).Some?
    ensures Three(i, op0, op1, op2) ==
            Ok(Built(true, Append(Append(Append(i, Src, ByName(Src, PImm, op2.Field(0)).value),
                                         Src, RegParams(op1.Field(0))),
                                  Src, RegParams(op0.Field(0)))))
  {
    hide GetRegParameter, RegParams, Hex.ParseHex, Frame, Extends;
  }

  /** Every other three-operand form is rejected untouched. */
  lemma OtherThree(i: Inst)
    requires i.WellFormed() && i.oprnum == 3 && !Skipped(i.opcstr)
    requires !(i.opcstr == "imul" && i.oprd[0].ty == Reg && i.oprd[1].ty == Reg && i.oprd[2].ty == Imm)
    ensures Assign(i) == Ok(Built(false, i))
  {
  }

  /** Four or more operands are rejected. */
  lemma TooManyOperands(i: Inst)
    requires i.WellFormed() && i.oprnum > 3 && !Skipped(i.opcstr)
    ensures Assign(i) == Ok(Built(false, i))
  {
  }

  // ---------------------------------------------------------------- backslice

  /** The worklist, a `set<Parameter>` ordered by `operator<`: parameters that are
      `==` share one slot, so it holds one representative (`Canon`) per class. */
  type WorkList = set<Parameter>

  /** The slots a list of parameters occupies. */
  function Keys(ps: seq<Parameter>): set<Parameter> {
    set k | 0 <= k < |ps| :: Canon(ps[k])
  }

  /** The slots of the non-immediate parameters. */
  function NonImmKeys(ps: seq<Parameter>): set<Parameter> {
    set k | 0 <= k < |ps| && !IsImm(ps[k]) :: Canon(ps[k])
  }

  /** `for each p: if (wl.find(p) != end) { found = true; wl.erase(p); }`. */
  function EraseEach(ps: seq<Parameter>, wl: WorkList): (r: (bool, WorkList))
    ensures r.1 == wl - Keys(ps)
    ensures r.0 <==> exists k | 0 <= k < |ps| :: Canon(ps[k]) in wl
  {
    if ps == [] then (false, wl)
    else
      var rest := EraseEach(ps[1..], wl - {Canon(ps[0])});
      assert Keys(ps) == {Canon(ps[0])} + Keys(ps[1..]) by {
        forall k | 1 <= k < |ps| ensures ps[k] == ps[1..][k - 1] {}
      }
      assert rest.0 ==> exists k | 0 <= k < |ps| :: Canon(ps[k]) in wl by {
        if rest.0 {
          var k :| 0 <= k < |ps[1..]| && Canon(ps[1..][k]) in wl - {Canon(ps[0])};
          assert Canon(ps[k + 1]) in wl;
        }
      }
      assert (exists k | 0 <= k < |ps| :: Canon(ps[k]) in wl) && Canon(ps[0]) !in wl ==> rest.0 by {
        if Canon(ps[0]) !in wl && exists k | 0 <= k < |ps| :: Canon(ps[k]) in wl {
          var k :| 0 <= k < |ps| && Canon(ps[k]) in wl;
          assert k > 0 && Canon(ps[1..][k - 1]) in wl - {Canon(ps[0])};
        }
      }
      (Canon(ps[0]) in wl || rest.0, rest.1)
  }

  /** Does any of the parameters occupy a slot of the worklist? */
  predicate Hits(ps: seq<Parameter>, wl: WorkList) {
    exists k | 0 <= k < |ps| :: Canon(ps[k]) in wl
  }

  /** One step of the backward walk over instruction `i`: how many copies of it go in
      front of the slice, and the new worklist. An instruction without destinations
      is passed over. Otherwise the destinations found are erased, and if any was
      found the sources are added: all of `src2` for `xchg`, the non-immediate ones
      of `src` otherwise. The second `xchg` loop runs over `dst2`'s length but looks
      up `dst[i]`; it indexes past `dst` when `dst2` is the longer list. */
  function Visit(i: Inst, wl: WorkList): (r: Result<(nat, WorkList)>)
    ensures r.Abort? <==> i.dst != [] && i.opcstr == "xchg" && |i.dst2| > |i.dst|
    ensures r.Ok? ==> r.value.0 <= 1
    ensures r.Ok? ==> (r.value.0 == 1 <==> i.dst != [] && Hits(i.dst, wl))
    ensures r.Ok? && r.value.0 == 0 ==> r.value.1 == wl
    ensures r.Ok? && r.value.0 == 1 ==>
      r.value.1 == (wl - Keys(i.dst)) + (if i.opcstr == "xchg" then Keys(i.src2) else NonImmKeys(i.src))
  {
    if i.dst == [] then Ok((0, wl))
    else if i.opcstr == "xchg" then
      var (d1, wl1) := EraseEach(i.dst, wl);
      if |i.dst2| > |i.dst| then Abort("dst indexed past its end")
      else
        var (d2, wl2) := EraseEach(i.dst[..|i.dst2|], wl1);
        var wl3 := if d1 then wl2 + Keys(i.src2) else wl2;
        var wl4 := if d2 && |i.src| > 0 then wl3 + {Canon(i.src[0])} else wl3;
        SecondLookupMisses(i.dst, |i.dst2|, wl);
        Ok(((if d1 then 1 else 0) + (if d2 then 1 else 0), wl4))
    else
      var (d, wl1) := EraseEach(i.dst, wl);
      if d then Ok((1, wl1 + NonImmKeys(i.src))) else Ok((0, wl1))
  }

  /** The second `xchg` loop never finds anything: the first loop has already erased
      every `dst[i]` it could look up. So an `xchg` enters the slice at most once, and
      only through `dst`; a worklist that holds only its `dst2` bytes passes it by. */
  lemma SecondLookupMisses(dst: seq<Parameter>, n: nat, wl: WorkList)
    requires n <= |dst|
    ensures !EraseEach(dst[..n], EraseEach(dst, wl).1).0
    ensures EraseEach(dst[..n], EraseEach(dst, wl).1).1 == EraseEach(dst, wl).1
  {
    var wl1 := EraseEach(dst, wl).1;
    forall k | 0 <= k < n ensures Canon(dst[..n][k]) !in wl1 {
      assert Canon(dst[k]) in Keys(dst);
    }
    assert Keys(dst[..n]) !! wl1 by {
      forall x | x in Keys(dst[..n]) ensures x !in wl1 {
        var k :| 0 <= k < n && x == Canon(dst[..n][k]);
      }
    }
  }

  /** An `xchg` whose destination bytes are not in the worklist is left out even
      when its second destination's are: the slice misses what the exchange wrote
      through its second operand. */
  lemma XchgSecondDestinationIgnored(i: Inst, wl: WorkList)
    requires i.opcstr == "xchg" && i.dst != [] && |i.dst2| <= |i.dst|
    requires !Hits(i.dst, wl) && Hits(i.dst2, wl)
    ensures Visit(i, wl) == Ok((0, wl))
  {
  }

  /** Strictly increasing positions: a subsequence in trace order. */
  predicate Increasing(ix: seq<nat>) {
    forall a, b | 0 <= a < b < |ix| :: ix[a] < ix[b]
  }

  /** The backward walk over `L[0..k)`, last instruction first: the positions kept,
      in trace order, and the worklist left. */
  function Walk(L: seq<Inst>, k: nat, wl: WorkList): (r: Result<(seq<nat>, WorkList)>)
    requires k <= |L|
    ensures r.Ok? ==> Increasing(r.value.0)
    ensures r.Ok? ==> forall j | 0 <= j < |r.value.0| :: r.value.0[j] < k && L[r.value.0[j]].dst != []
    decreases k
  {
    if k == 0 then Ok(([], wl))
    else
      var v :- Visit(L[k - 1], wl);
      var rest :- Walk(L, k - 1, v.1);
      Ok((rest.0 + (if v.0 == 1 then [k - 1] else []), rest.1))
  }

  /** `backslice(L)`: the last instruction is always kept and its sources, immediates
      included, seed the worklist; the walk then goes back through the rest of the
      trace. The result is the positions of the slice and the final worklist. */
  function BackSlice(L: seq<Inst>): (r: Result<(seq<nat>, WorkList)>)
    ensures L == [] ==> r.Abort?
    ensures r.Ok? ==> |r.value.0| > 0 && r.value.0[|r.value.0| - 1] == |L| - 1
    ensures r.Ok? ==> Increasing(r.value.0)
    ensures r.Ok? ==> forall j | 0 <= j < |r.value.0| - 1 :: L[r.value.0[j]].dst != []
  {
    if L == [] then Abort("rbegin of an empty list dereferenced")
    else
      var w :- Walk(L, |L| - 1, Keys(L[|L| - 1].src));
      Ok((w.0 + [|L| - 1], w.1))
  }

  /** The instructions of a slice, in trace order. */
  function Slice(L: seq<Inst>, ix: seq<nat>): (s: seq<Inst>)
    requires forall j | 0 <= j < |ix| :: ix[j] < |L|
    ensures |s| == |ix| && forall j | 0 <= j < |ix| :: s[j] == L[ix[j]]
  {
    seq(|ix|, j requires 0 <= j < |ix| => L[ix[j]])
  }

  /** Increasing positions below `|L|`, all from `d` on, pick out a subsequence of
      `L[d..]`. */
  lemma {:induction false} SliceFrom(L: seq<Inst>, ix: seq<nat>, d: nat)
    requires d <= |L| && Increasing(ix)
    requires forall j | 0 <= j < |ix| :: d <= ix[j] < |L|
    ensures Subsequence(Slice(L, ix), L[d..])
    decreases |L| - d
  {
    if ix != [] {
      var s := Slice(L, ix);
      assert d <= ix[0] < |L|;
      assert L[d..][1..] == L[d + 1..];
      if ix[0] == d {
        SliceFrom(L, ix[1..], d + 1);
        assert s[1..] == Slice(L, ix[1..]);
        assert s[0] == L[d..][0];
      } else {
        SliceFrom(L, ix, d + 1);
      }
    }
  }

  /** The slice of increasing positions, such as `BackSlice` returns, is the trace
      with the other instructions left out, order kept. */
  lemma SliceSubsequence(L: seq<Inst>, ix: seq<nat>)
    requires Increasing(ix) && forall j | 0 <= j < |ix| :: ix[j] < |L|
    ensures Subsequence(Slice(L, ix), L)
  {
    SliceFrom(L, ix, 0);
    assert L[0..] == L;
  }

  /** The walk keeps an instruction exactly when, at its turn, one of its destination
      bytes is in the worklist. */
  lemma {:induction false} WalkKeeps(L: seq<Inst>, k: nat, wl: WorkList)
    requires 0 < k <= |L| && Walk(L, k, wl).Ok?
    ensures Visit(L[k - 1], wl).Ok?
    ensures k - 1 in Walk(L, k, wl).value.0 <==> L[k - 1].dst != [] && Hits(L[k - 1].dst, wl)
  {
    var v := Visit(L[k - 1], wl).value;
    var rest := Walk(L, k - 1, v.1).value;
    assert k - 1 !in rest.0;
  }

  /** The walk fails only on an `xchg` whose second destination list is longer than
      its first. */
  lemma {:induction false} WalkDefined(L: seq<Inst>, k: nat, wl: WorkList)
    requires k <= |L|
    requires forall j | 0 <= j < k :: !(L[j].opcstr == "xchg" && |L[j].dst2| > |L[j].dst|)
    ensures Walk(L, k, wl).Ok?
    decreases k
  {
    if k > 0 {
      WalkDefined(L, k - 1, Visit(L[k - 1], wl).value.1);
    }
  }
}
