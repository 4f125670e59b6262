/** `SEEngine::symexec` (mg-symengine.cpp:656-1129): the interpreter that runs the
    trace's instructions over the symbolic registers and memory, one `switch` case
    per operand count. */
module SymExec {
  import opened Wrappers
  import opened Word
  import opened SymValue
  import RangeMap
  import Hex
  import Core
  import opened SymEngine
  import opened SymMemory
  import HybridOps

  type Inst = Core.Inst
  type Operand = Core.Operand

  /** What every instruction keeps: every reference the engine holds exists, and
      memory is sorted by range. */
  ghost predicate Ready(e: Engine) {
    Wf(e) && RangeMap.Sorted(e.mem)
  }

  /** `e'` is a state reachable from `e`: still ready, and its id counter has not
      gone back. */
  ghost predicate Advanced(e: Engine, e': Engine) {
    Ready(e') && e.heap.seed <= e'.heap.seed
  }

  /** How an instruction ends: the loop goes on, or `symexec` returns 1. A failure
      of the program itself (a NULL dereference, an uncaught `stoul` exception) is
      the `Abort` of the surrounding `Result`. */
  datatype Flow = Next(e: Engine) | Halt(e: Engine)

  ghost predicate Sound(e: Engine, r: Result<Flow>) {
    r.Ok? ==> Advanced(e, r.value.e)
  }

  // ---------------------------------------------------------------- engine steps

  /** `readReg(s)`. */
  function GetReg(e: Engine, s: string): (res: Result<(Engine, Ref)>)
    requires Ready(e)
    ensures res.Ok? ==> Advanced(e, res.value.0) && res.value.1 <= res.value.0.heap.seed
    ensures res.Ok? ==> res.value.0 == e.(heap := res.value.0.heap)
    ensures s in RegNames ==> res == Ok((e, CtxAt(e.ctx, s)))
  {
    var hv :- ReadReg(e, s);
    ReadRegWf(e, s);
    Ok((e.(heap := hv.0), hv.1))
  }

  /** `writeReg(s, v)`. */
  function SetReg(e: Engine, s: string, v: Ref): (res: Result<Engine>)
    requires Ready(e) && v <= e.heap.seed
    ensures res.Ok? ==> Advanced(e, res.value)
    ensures s in RegNames ==> res == Ok(e.(ctx := e.ctx[s := v]))
  {
    var e' :- WriteReg(e, s, v);
    WriteRegWf(e, s, v);
    Ok(e')
  }

  /** `readMem(addr, nbyte)`. */
  function Load(e: Engine, addr: u32, nbyte: int): (res: Result<(Engine, Ref)>)
    requires Ready(e)
    ensures res.Ok? ==> Advanced(e, res.value.0) && res.value.1 <= res.value.0.heap.seed
    ensures res == ReadMem(e, addr, nbyte)
  {
    var ev :- ReadMem(e, addr, nbyte);
    ReadMemWf(e, addr, nbyte);
    Ok(ev)
  }

  /** `writeMem(addr, nbyte, v)`. */
  function Save(e: Engine, addr: u32, nbyte: int, v: Ref): (res: Result<Engine>)
    requires Ready(e) && v <= e.heap.seed
    ensures res.Ok? ==> Advanced(e, res.value)
    ensures res == WriteMem(e, addr, nbyte, v)
  {
    var e' :- WriteMem(e, addr, nbyte, v);
    WriteMemWf(e, addr, nbyte, v);
    Ok(e')
  }

  /** `new Value(CONCRETE, text)`. */
  function Const(e: Engine, text: string): (res: Result<(Engine, Ref)>)
    requires Ready(e)
    ensures res.Ok? <==> Hex.ParseHex(text).Some?
    ensures res.Ok? ==> Advanced(e, res.value.0) && res.value.1 == res.value.0.heap.seed
    ensures res.Ok? ==> res.value.0 == e.(heap := res.value.0.heap)
    ensures res.Ok? ==> Lit(res.value.0.heap, res.value.1, Hex.ParseHex(text).value)
  {
    var hv :- NewConcrete(e.heap, text);
    AllocBounded(e.heap, ConcreteLit(Hex.ParseHex(text).value));
    Ok((e.(heap := hv.0), hv.1))
  }

  /** `buildop1(tag, a)`. */
  function Apply1(e: Engine, tag: string, a: Ref): (res: Result<(Engine, Ref)>)
    requires Ready(e)
    ensures res.Ok? <==> a in e.heap.vals
    ensures res.Ok? ==> Advanced(e, res.value.0) && res.value.1 == res.value.0.heap.seed
    ensures res.Ok? ==> res.value.0 == e.(heap := res.value.0.heap) && Node(res.value.0.heap, res.value.1, tag, [a])
  {
    var hr :- BuildOp1(e.heap, tag, a);
    BuildOp1Bounded(e.heap, tag, a);
    Ok((e.(heap := hr.0), hr.1))
  }

  /** `buildop2(tag, a, b)`. */
  function Apply2(e: Engine, tag: string, a: Ref, b: Ref): (res: Result<(Engine, Ref)>)
    requires Ready(e)
    ensures res.Ok? <==> a in e.heap.vals && (e.heap.vals[a].kind == Symbol || b in e.heap.vals)
    ensures res.Ok? ==> Advanced(e, res.value.0) && res.value.1 == res.value.0.heap.seed
    ensures res.Ok? ==> res.value.0 == e.(heap := res.value.0.heap) && Node(res.value.0.heap, res.value.1, tag, [a, b])
  {
    var hr :- BuildOp2(e.heap, tag, a, b);
    BuildOp2Bounded(e.heap, tag, a, b);
    Ok((e.(heap := hr.0), hr.1))
  }

  // ---------------------------------------------------------------- operands

  /** `it->oprd[i]`: only the slots the parser filled may be read. */
  function Opd(inst: Inst, i: nat): (r: Result<Operand>)
    ensures r.Ok? <==> i < |inst.oprd|
    ensures r.Ok? ==> r.value == inst.oprd[i]
  {
    if i < |inst.oprd| then Ok(inst.oprd[i]) else Abort("operand slot not set")
  }

  /** `op->bit / 8`, truncating toward zero as C++ does. */
  function Nbyte(op: Operand): (n: int)
    ensures op.bit >= 0 ==> n == op.bit / 8
    ensures op.bit < 0 ==> n == -((-op.bit) / 8)
  {
    if op.bit >= 0 then op.bit / 8 else -((-op.bit) / 8)
  }

  /** Reads the source operand of the two-operand default path; `None` when it is
      neither immediate, register nor memory, where `symexec` returns 1. */
  function Fetch(e: Engine, inst: Inst, op: Operand): (res: Result<Option<(Engine, Ref)>>)
    requires Ready(e)
    ensures res.Ok? ==> (res.value.None? <==> op.ty == Core.Unset)
    ensures res.Ok? && res.value.Some? ==>
              Advanced(e, res.value.value.0) && res.value.value.1 <= res.value.value.0.heap.seed
  {
    match op.ty
    case Imm => var ev :- Const(e, op.Field(0)); Ok(Some(ev))
    case Reg => var ev :- GetReg(e, op.Field(0)); Ok(Some(ev))
    case Mem => var ev :- Load(e, inst.raddr, Nbyte(op)); Ok(Some(ev))
    case Unset => Ok(None)
  }

  // ---------------------------------------------------------------- two operands

  /** The default two-operand path: the source is read, then the destination, and
      `buildop2(opcstr, dst, src)` is written back to the destination. */
  function Generic(e: Engine, inst: Inst, op0: Operand, op1: Operand): (res: Result<Flow>)
    requires Ready(e)
    ensures Sound(e, res)
  {
    var src :- Fetch(e, inst, op1);
    if src.None? then Ok(Halt(e))
    else
      var e1 := src.value.0;
      var v1 := src.value.1;
      if op0.ty == Core.Reg then
        var d :- GetReg(e1, op0.Field(0));
        var b :- Apply2(d.0, inst.opcstr, d.1, v1);
        var e4 :- SetReg(b.0, op0.Field(0), b.1);
        Ok(Next(e4))
      else if op0.ty == Core.Mem then
        var n := Nbyte(op0);
        var d :- Load(e1, inst.raddr, n);
        var b :- Apply2(d.0, inst.opcstr, d.1, v1);
        var e4 :- Save(b.0, inst.waddr, n, b.1);
        Ok(Next(e4))
      else Ok(Halt(e1))
  }

  /** `mov`: register from immediate, register or memory; memory from immediate or
      register; any other combination changes nothing, except a register
      destination whose source is unset, where `symexec` returns 1. */
  function Mov(e: Engine, inst: Inst, op0: Operand, op1: Operand): (res: Result<Flow>)
    requires Ready(e)
    ensures Sound(e, res)
  {
    if op0.ty == Core.Reg then
      if op1.ty == Core.Imm then
        var c :- Const(e, op1.Field(0));
        var e' :- SetReg(c.0, op0.Field(0), c.1);
        Ok(Next(e'))
      else if op1.ty == Core.Reg then
        var t :- GetReg(e, op1.Field(0));
        var e' :- SetReg(t.0, op0.Field(0), t.1);
        Ok(Next(e'))
      else if op1.ty == Core.Mem then
        var t :- Load(e, inst.raddr, Nbyte(op1));
        var e' :- SetReg(t.0, op0.Field(0), t.1);
        Ok(Next(e'))
      else Ok(Halt(e))
    else if op0.ty == Core.Mem then
      if op1.ty == Core.Imm then
        var c :- Const(e, op1.Field(0));
        var e' :- Save(c.0, inst.waddr, Nbyte(op0), c.1);
        Ok(Next(e'))
      else if op1.ty == Core.Reg then
        var t :- GetReg(e, op1.Field(0));
        var e' :- Save(t.0, inst.waddr, Nbyte(op0), t.1);
        Ok(Next(e'))
      else Ok(Next(e))
    else Ok(Next(e))
  }

  /** `lea`: only the address form with tag 5, `[base + index*scale]`, is
      interpreted, as `add(base, imul(index, scale))`; the check that the operands
      are a register and an address only prints. */
  function Lea(e: Engine, op0: Operand, op1: Operand): (res: Result<Flow>)
    requires Ready(e)
    ensures Sound(e, res)
  {
    if op1.tag == 5 then
      var f0 :- GetReg(e, op1.Field(0));
      var f1 :- GetReg(f0.0, op1.Field(1));
      var f2 :- Const(f1.0, op1.Field(2));
      var m :- Apply2(f2.0, "imul", f1.1, f2.1);
      var s :- Apply2(m.0, "add", f0.1, m.1);
      var e' :- SetReg(s.0, op0.Field(0), s.1);
      Ok(Next(e'))
    else Ok(Next(e))
  }

  /** `xchg`: register with register, memory with register, register with memory;
      both values are read before either is written. */
  function Xchg(e: Engine, inst: Inst, op0: Operand, op1: Operand): (res: Result<Flow>)
    requires Ready(e)
    ensures Sound(e, res)
  {
    if op1.ty == Core.Reg then
      var a :- GetReg(e, op1.Field(0));
      if op0.ty == Core.Reg then
        var b :- GetReg(a.0, op0.Field(0));
        var e2 :- SetReg(b.0, op1.Field(0), b.1);
        var e3 :- SetReg(e2, op0.Field(0), a.1);
        Ok(Next(e3))
      else if op0.ty == Core.Mem then
        var n := Nbyte(op0);
        var b :- Load(a.0, inst.raddr, n);
        var e2 :- SetReg(b.0, op1.Field(0), b.1);
        var e3 :- Save(e2, inst.waddr, n, a.1);
        Ok(Next(e3))
      else Ok(Next(a.0))
    else if op1.ty == Core.Mem then
      var n := Nbyte(op1);
      var a :- Load(e, inst.raddr, n);
      if op0.ty == Core.Reg then
        var b :- GetReg(a.0, op0.Field(0));
        var e2 :- SetReg(b.0, op0.Field(0), a.1);
        var e3 :- Save(e2, inst.waddr, n, b.1);
        Ok(Next(e3))
      else Ok(Next(a.0))
    else Ok(Next(e))
  }

  /** The fast-path test of `shl`, `shr`, `and` and `or`, evaluated left to right:
      a register destination, an immediate source, and a destination that reads as
      a HYBRID. The register read may allocate, and what it returns is
      dereferenced. */
  function HybridDest(e: Engine, op0: Operand, op1: Operand): (res: Result<(Engine, bool)>)
    requires Ready(e)
    ensures res.Ok? ==> Advanced(e, res.value.0)
    ensures res.Ok? && res.value.1 ==> op0.ty == Core.Reg && op1.ty == Core.Imm
    ensures !(op0.ty == Core.Reg && op1.ty == Core.Imm) ==> res == Ok((e, false))
  {
    if op0.ty == Core.Reg && op1.ty == Core.Imm then
      var t :- GetReg(e, op0.Field(0));
      if t.1 !in t.0.heap.vals then Abort("NULL value dereferenced")
      else Ok((t.0, t.0.heap.vals[t.1].kind == Hybrid))
    else Ok((e, false))
  }

  /** `(int)stoul(text, 0, 16)`. */
  function Offset(text: string): (r: Result<int>)
    ensures r.Ok? <==> Hex.ParseHex(text).Some?
    ensures r.Ok? ==> r.value == HybridOps.ToInt32(Hex.ParseHex(text).value)
  {
    var n := Hex.ParseHex(text);
    if n.None? then Abort("stoul: no hex digits") else Ok(HybridOps.ToInt32(n.value))
  }

  /** `shl` or `shr` on a hybrid register by an immediate: its children are moved
      in place. */
  function ShiftHybrid(e: Engine, op0: Operand, op1: Operand, left: bool): (res: Result<Flow>)
    requires Ready(e)
    ensures Sound(e, res)
  {
    var t :- GetReg(e, op0.Field(0));
    var off :- Offset(op1.Field(0));
    var h := t.0.heap;
    if left then
      var h' :- HybridOps.ShlHybrid(h, t.1, off);
      HybridOps.ShlHybridBounded(h, t.1, off);
      Ok(Next(t.0.(heap := h')))
    else
      var h' :- HybridOps.ShrHybrid(h, t.1, off);
      HybridOps.ShrHybridBounded(h, t.1, off);
      Ok(Next(t.0.(heap := h')))
  }

  /** `shl` and `shr`: the hybrid fast path, or the default path. */
  function Shift(e: Engine, inst: Inst, op0: Operand, op1: Operand, left: bool): (res: Result<Flow>)
    requires Ready(e)
    ensures Sound(e, res)
  {
    var t :- HybridDest(e, op0, op1);
    if t.1 then ShiftHybrid(t.0, op0, op1, left) else Generic(t.0, inst, op0, op1)
  }

  /** `and` or `or` of a hybrid register with an immediate: when the constant
      decides every bit under a SYMBOL child, the register becomes the folded
      constant; otherwise nothing is written. */
  function FoldHybrid(e: Engine, op0: Operand, op1: Operand, isAnd: bool): (res: Result<Flow>)
    requires Ready(e)
    ensures Sound(e, res)
  {
    var t :- GetReg(e, op0.Field(0));
    var c :- Const(t.0, op1.Field(0));
    var h := c.0.heap;
    if t.1 !in h.vals then Abort("NULL value dereferenced")
    else
      var cs := h.vals[t.1].childs;
      var imm := h.vals[c.1].bits;
      var ok :- HybridOps.Status(h, cs, 0, imm, isAnd);
      if !ok then Ok(Next(c.0))
      else
        var bits :- HybridOps.Fold(h, cs, 0, imm, isAnd, HybridOps.Clear(32));
        var v := HybridOps.Folded(bits);
        AllocBounded(h, v);
        var hr := Alloc(h, v);
        var e' :- SetReg(c.0.(heap := hr.0), op0.Field(0), hr.1);
        Ok(Next(e'))
  }

  /** `and` and `or`: the hybrid fold, or the default path. */
  function Logic(e: Engine, inst: Inst, op0: Operand, op1: Operand, isAnd: bool): (res: Result<Flow>)
    requires Ready(e)
    ensures Sound(e, res)
  {
    var t :- HybridDest(e, op0, op1);
    if t.1 then FoldHybrid(t.0, op0, op1, isAnd) else Generic(t.0, inst, op0, op1)
  }

  /** The opcodes of the first `if` chain of the two-operand case. */
  const FirstChainOps: set<string> := {"mov", "lea", "xchg", "shl", "shr", "and"}

  /** The first `if` chain; an opcode it does not name falls out of it unchanged. */
  function FirstChain(e: Engine, inst: Inst, op0: Operand, op1: Operand): (res: Result<Flow>)
    requires Ready(e)
    ensures Sound(e, res)
    ensures inst.opcstr !in FirstChainOps ==> res == Ok(Next(e))
  {
    if inst.opcstr == "mov" then Mov(e, inst, op0, op1)
    else if inst.opcstr == "lea" then Lea(e, op0, op1)
    else if inst.opcstr == "xchg" then Xchg(e, inst, op0, op1)
    else if inst.opcstr == "shl" then Shift(e, inst, op0, op1, true)
    else if inst.opcstr == "shr" then Shift(e, inst, op0, op1, false)
    else if inst.opcstr == "and" then Logic(e, inst, op0, op1, true)
    else Ok(Next(e))
  }

  /** The `or` test and the default `else`: everything but an `or` of a register
      with an immediate takes the default path. */
  function SecondChain(e: Engine, inst: Inst, op0: Operand, op1: Operand): (res: Result<Flow>)
    requires Ready(e)
    ensures Sound(e, res)
    ensures inst.opcstr != "or" || !(op0.ty == Core.Reg && op1.ty == Core.Imm) ==>
              res == Generic(e, inst, op0, op1)
  {
    if inst.opcstr == "or" then Logic(e, inst, op0, op1, false) else Generic(e, inst, op0, op1)
  }

  /** The two-operand case as the source has it: the `or` test begins a new
      statement instead of continuing the chain with `else if`, so an opcode the
      first chain handled goes through the second chain's default path as well. */
  function TwoAsWritten(e: Engine, inst: Inst): (res: Result<Flow>)
    requires Ready(e)
    ensures Sound(e, res)
  {
    var op0 :- Opd(inst, 0);
    var op1 :- Opd(inst, 1);
    var f :- FirstChain(e, inst, op0, op1);
    if f.Halt? then Ok(f) else SecondChain(f.e, inst, op0, op1)
  }

  /** The two-operand case as one `else if` chain: each opcode takes exactly one
      path. */
  function Two(e: Engine, inst: Inst): (res: Result<Flow>)
    requires Ready(e)
    ensures Sound(e, res)
  {
    var op0 :- Opd(inst, 0);
    var op1 :- Opd(inst, 1);
    if inst.opcstr in FirstChainOps then FirstChain(e, inst, op0, op1)
    else SecondChain(e, inst, op0, op1)
  }

  // ---------------------------------------------------------------- one and three operands

  /** `push`: an immediate is stored as four bytes, a register or memory operand
      with its own width, at the write address. */
  function Push(e: Engine, inst: Inst, op0: Operand): (res: Result<Flow>)
    requires Ready(e)
    ensures Sound(e, res)
  {
    if op0.ty == Core.Imm then
      var c :- Const(e, op0.Field(0));
      var e' :- Save(c.0, inst.waddr, 4, c.1);
      Ok(Next(e'))
    else if op0.ty == Core.Reg then
      var t :- GetReg(e, op0.Field(0));
      var e' :- Save(t.0, inst.waddr, Nbyte(op0), t.1);
      Ok(Next(e'))
    else if op0.ty == Core.Mem then
      var n := Nbyte(op0);
      var t :- Load(e, inst.raddr, n);
      var e' :- Save(t.0, inst.waddr, n, t.1);
      Ok(Next(e'))
    else Ok(Halt(e))
  }

  /** `pop`: the value at the read address goes to the register or to the write
      address. */
  function Pop(e: Engine, inst: Inst, op0: Operand): (res: Result<Flow>)
    requires Ready(e)
    ensures Sound(e, res)
  {
    var n := Nbyte(op0);
    if op0.ty == Core.Reg then
      var t :- Load(e, inst.raddr, n);
      var e' :- SetReg(t.0, op0.Field(0), t.1);
      Ok(Next(e'))
    else if op0.ty == Core.Mem then
      var t :- Load(e, inst.raddr, n);
      var e' :- Save(t.0, inst.waddr, n, t.1);
      Ok(Next(e'))
    else Ok(Halt(e))
  }

  /** Any other one-operand instruction: `buildop1(opcstr, x)` written back to `x`. */
  function Unary(e: Engine, inst: Inst, op0: Operand): (res: Result<Flow>)
    requires Ready(e)
    ensures Sound(e, res)
  {
    if op0.ty == Core.Reg then
      var t :- GetReg(e, op0.Field(0));
      var b :- Apply1(t.0, inst.opcstr, t.1);
      var e' :- SetReg(b.0, op0.Field(0), b.1);
      Ok(Next(e'))
    else if op0.ty == Core.Mem then
      var n := Nbyte(op0);
      var t :- Load(e, inst.raddr, n);
      var b :- Apply1(t.0, inst.opcstr, t.1);
      var e' :- Save(b.0, inst.waddr, n, b.1);
      Ok(Next(e'))
    else Ok(Halt(e))
  }

  function One(e: Engine, inst: Inst): (res: Result<Flow>)
    requires Ready(e)
    ensures Sound(e, res)
  {
    var op0 :- Opd(inst, 0);
    if inst.opcstr == "push" then Push(e, inst, op0)
    else if inst.opcstr == "pop" then Pop(e, inst, op0)
    else Unary(e, inst, op0)
  }

  /** Three operands: only `imul reg, reg, imm` is interpreted, as the two-operand
      `imul` of the second and third. */
  function Three(e: Engine, inst: Inst): (res: Result<Flow>)
    requires Ready(e)
    ensures Sound(e, res)
  {
    var op0 :- Opd(inst, 0);
    var op1 :- Opd(inst, 1);
    var op2 :- Opd(inst, 2);
    if inst.opcstr == "imul" && op0.ty == Core.Reg && op1.ty == Core.Reg && op2.ty == Core.Imm then
      var a :- GetReg(e, op1.Field(0));
      var c :- Const(a.0, op2.Field(0));
      var b :- Apply2(c.0, inst.opcstr, a.1, c.1);
      var e' :- SetReg(b.0, op0.Field(0), b.1);
      Ok(Next(e'))
    else Ok(Next(e))
  }

  // ---------------------------------------------------------------- the loop

  /** Instructions with no effect on the symbolic state: tests, compares, jumps,
      calls and returns. */
  const NoEffect: set<string> := {
    "test", "jmp", "jz", "jbe", "jo", "jno", "js", "jns", "je", "jne",
    "jnz", "jb", "jnae", "jc", "jnb", "jae",
    "jnc", "jna", "ja", "jnbe", "jl",
    "jnge", "jge", "jnl", "jle", "jng", "jg",
    "jnle", "jp", "jpe", "jnp", "jpo", "jcxz",
    "jecxz", "ret", "cmp", "call"}

  /** One turn of the loop: the case for the instruction's operand count. */
  function Step(e: Engine, inst: Inst): (res: Result<Flow>)
    requires Ready(e)
    ensures Sound(e, res)
    ensures inst.opcstr in NoEffect || inst.oprnum !in {1, 2, 3} ==> res == Ok(Next(e))
  {
    if inst.opcstr in NoEffect then Ok(Next(e))
    else if inst.oprnum == 1 then One(e, inst)
    else if inst.oprnum == 2 then TwoAsWritten(e, inst)
    else if inst.oprnum == 3 then Three(e, inst)
    else Ok(Next(e))
  }

  /** One turn of the loop with the two-operand case as one `else if` chain. It
      differs from `Step` only on the two-operand opcodes of the first chain. */
  function StepFixed(e: Engine, inst: Inst): (res: Result<Flow>)
    requires Ready(e)
    ensures Sound(e, res)
    ensures !(inst.oprnum == 2 && inst.opcstr in FirstChainOps) ==> res == Step(e, inst)
  {
    if inst.opcstr !in NoEffect && inst.oprnum == 2 then Two(e, inst) else Step(e, inst)
  }

  /** `symexec` over the instructions from index `i` on: 1 as soon as one stops
      it, 0 at the end, and the state it leaves. */
  function Run(e: Engine, insts: seq<Inst>, i: nat): (res: Result<(int, Engine)>)
    requires Ready(e)
    ensures res.Ok? ==> (res.value.0 == 0 || res.value.0 == 1) && Advanced(e, res.value.1)
    decreases |insts| - i
  {
    if i >= |insts| then Ok((0, e))
    else
      var f :- Step(e, insts[i]);
      if f.Halt? then Ok((1, f.e)) else Run(f.e, insts, i + 1)
  }

  /** `symexec` with `StepFixed` in place of `Step`. */
  function RunFixed(e: Engine, insts: seq<Inst>, i: nat): (res: Result<(int, Engine)>)
    requires Ready(e)
    ensures res.Ok? ==> (res.value.0 == 0 || res.value.0 == 1) && Advanced(e, res.value.1)
    decreases |insts| - i
  {
    if i >= |insts| then Ok((0, e))
    else
      var f :- StepFixed(e, insts[i]);
      if f.Halt? then Ok((1, f.e)) else RunFixed(f.e, insts, i + 1)
  }
}
