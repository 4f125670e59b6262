/** What `symexec` does to registers and memory for the common instruction shapes,
    the effect of the missing `else` in its two-operand case, and how runs over a
    trace compose. */
module ExecProps {
  import opened Wrappers
  import opened Word
  import opened SymValue
  import RangeMap
  import Hex
  import Core
  import opened SymEngine
  import opened SymMemory
  import HybridOps
  import opened SymExec

  /** An operand naming a register. */
  predicate IsRegOpd(op: Operand, r: string) {
    op.ty == Core.Reg && op.Field(0) == r
  }

  /** A two-operand instruction `opc op0, op1`. */
  predicate TwoShape(inst: Inst, opc: string) {
    inst.opcstr == opc && inst.oprnum == 2 && |inst.oprd| >= 2
  }

  // ---------------------------------------------------------------- mov and xchg

  /** `mov r, imm` makes `r` the literal the immediate spells, and leaves every other
      register alone. */
  lemma MovRegImm(e: Engine, inst: Inst, r: string, n: nat)
    requires Ready(e) && TwoShape(inst, "mov") && r in RegNames
    requires IsRegOpd(inst.oprd[0], r) && inst.oprd[1].ty == Core.Imm
    requires Hex.ParseHex(inst.oprd[1].Field(0)) == Some(n)
    ensures Two(e, inst).Ok? && Two(e, inst).value.Next?
    ensures var e' := Two(e, inst).value.e;
            Lit(e'.heap, e'.ctx[r], n) && e'.ctx == e.ctx[r := e'.ctx[r]] && e'.mem == e.mem
  {
    hide Lea, Xchg, Shift, Logic, Generic, Load, Save;
  }

  /** `mov a, b` between 32-bit registers copies the reference: `a` now denotes the
      very value `b` does. */
  lemma MovRegReg(e: Engine, inst: Inst, a: string, b: string)
    requires Ready(e) && TwoShape(inst, "mov") && a in RegNames && b in RegNames
    requires IsRegOpd(inst.oprd[0], a) && IsRegOpd(inst.oprd[1], b)
    ensures Two(e, inst) == Ok(Next(e.(ctx := e.ctx[a := CtxAt(e.ctx, b)])))
  {
    hide Lea, Xchg, Shift, Logic, Generic, Load, Save;
  }

  /** `xchg a, b` between 32-bit registers swaps the two references. */
  lemma XchgRegs(e: Engine, inst: Inst, a: string, b: string)
    requires Ready(e) && TwoShape(inst, "xchg") && a in RegNames && b in RegNames
    requires IsRegOpd(inst.oprd[0], a) && IsRegOpd(inst.oprd[1], b)
    ensures Two(e, inst) == Ok(Next(e.(ctx := e.ctx[b := CtxAt(e.ctx, a)][a := CtxAt(e.ctx, b)])))
  {
    hide Mov, Lea, Shift, Logic, Generic, Load, Save;
  }

  /** Exchanging twice gives back the registers as they were. */
  lemma XchgTwice(e: Engine, inst: Inst, a: string, b: string)
    requires Ready(e) && TwoShape(inst, "xchg") && a in RegNames && b in RegNames
    requires IsRegOpd(inst.oprd[0], a) && IsRegOpd(inst.oprd[1], b)
    requires a in e.ctx && b in e.ctx
    ensures Two(e, inst).Ok? && Two(e, inst).value.Next?
    ensures Two(Two(e, inst).value.e, inst) == Ok(Next(e))
  {
    hide Mov, Lea, Xchg, Shift, Logic, Generic, Load, Save;
    XchgRegs(e, inst, a, b);
    var e1 := Two(e, inst).value.e;
    XchgRegs(e1, inst, a, b);
    assert e1.ctx[b := CtxAt(e1.ctx, a)][a := CtxAt(e1.ctx, b)] == e.ctx;
  }

  // ---------------------------------------------------------------- the default path

  /** The default path on two 32-bit registers, `op a, b`: `a` becomes a fresh node
      `op(a, b)` over the two old values, and memory is untouched. It fails exactly
      when the old `a` is NULL, or is not a SYMBOL while `b` is NULL. */
  lemma GenericRegReg(e: Engine, inst: Inst, a: string, b: string)
    requires Ready(e) && |inst.oprd| >= 2 && a in RegNames && b in RegNames
    requires IsRegOpd(inst.oprd[0], a) && IsRegOpd(inst.oprd[1], b)
    ensures var x := CtxAt(e.ctx, a);
            var y := CtxAt(e.ctx, b);
            var g := Generic(e, inst, inst.oprd[0], inst.oprd[1]);
            && (g.Ok? <==> x in e.heap.vals && (e.heap.vals[x].kind == Symbol || y in e.heap.vals))
            && (g.Ok? ==>
                  && g.value.Next?
                  && g.value.e.heap.seed == e.heap.seed + 1
                  && g.value.e.ctx == e.ctx[a := e.heap.seed + 1]
                  && g.value.e.mem == e.mem
                  && Node(g.value.e.heap, e.heap.seed + 1, inst.opcstr, [x, y]))
  {
    hide Load, Save;
  }

  /** Any other two-operand instruction between 32-bit registers, `op a, b`, makes
      `a` a fresh node `op(a, b)` over the two old values; it fails exactly when the
      old `a` is NULL, or is not a SYMBOL while `b` is NULL. */
  lemma GenericRegs(e: Engine, inst: Inst, a: string, b: string)
    requires Ready(e) && inst.oprnum == 2 && |inst.oprd| >= 2
    requires inst.opcstr !in FirstChainOps && inst.opcstr != "or"
    requires a in RegNames && b in RegNames
    requires IsRegOpd(inst.oprd[0], a) && IsRegOpd(inst.oprd[1], b)
    ensures var x := CtxAt(e.ctx, a);
            var y := CtxAt(e.ctx, b);
            Two(e, inst).Ok? <==> x in e.heap.vals && (e.heap.vals[x].kind == Symbol || y in e.heap.vals)
    ensures Two(e, inst).Ok? ==>
              var e' := Two(e, inst).value;
              && e'.Next?
              && e'.e.heap.seed == e.heap.seed + 1
              && e'.e.ctx == e.ctx[a := e.heap.seed + 1]
              && Node(e'.e.heap, e.heap.seed + 1, inst.opcstr, [CtxAt(e.ctx, a), CtxAt(e.ctx, b)])
  {
    hide Mov, Lea, Xchg, Shift, Logic, Load, Save;
  }

  // ---------------------------------------------------------------- the missing else

  /** For an opcode the first chain does not name, the chain as written and the
      single `else if` chain agree. */
  lemma AsWrittenAgrees(e: Engine, inst: Inst)
    requires Ready(e) && inst.opcstr !in FirstChainOps
    ensures TwoAsWritten(e, inst) == Two(e, inst)
  {
  }

  /** The heap after `new Value(CONCRETE, text)` for a text spelling `n`. */
  function WithLit(h: Heap, n: nat): Heap {
    Heap(h.vals[h.seed + 1 := ConcreteLit(n)], h.seed + 1)
  }

  /** `r` set to a fresh literal `n`. */
  function PutLit(e: Engine, r: string, n: nat): Engine {
    e.(heap := WithLit(e.heap, n), ctx := e.ctx[r := e.heap.seed + 1])
  }

  /** `r` set to the fresh node `opc(r, lit)` over a fresh literal `n`. */
  function OpLit(e: Engine, opc: string, r: string, n: nat): Engine {
    var s := e.heap.seed;
    var h := WithLit(e.heap, n);
    var x := CtxAt(e.ctx, r);
    e.(heap := Heap(h.vals[s + 2 := Computed(Kind2(h, x, s + 1), Operation(opc, [x, s + 1]))], s + 2),
       ctx := e.ctx[r := s + 2])
  }

  /** The `mov` branch of `mov r, imm`: one literal, stored in `r`. */
  lemma MovImmBranch(e: Engine, inst: Inst, r: string, n: nat)
    requires Ready(e) && r in RegNames && |inst.oprd| >= 2
    requires IsRegOpd(inst.oprd[0], r) && inst.oprd[1].ty == Core.Imm
    requires Hex.ParseHex(inst.oprd[1].Field(0)) == Some(n)
    ensures Mov(e, inst, inst.oprd[0], inst.oprd[1]) == Ok(Next(PutLit(e, r, n)))
    ensures CtxAt(PutLit(e, r, n).ctx, r) in PutLit(e, r, n).heap.vals
  {
    hide Load, Save;
  }

  /** An immediate source operand reads as a fresh literal. */
  lemma FetchImm(e: Engine, inst: Inst, op: Operand, n: nat)
    requires Ready(e) && op.ty == Core.Imm && Hex.ParseHex(op.Field(0)) == Some(n)
    ensures Fetch(e, inst, op) == Ok(Some((e.(heap := WithLit(e.heap, n)), e.heap.seed + 1)))
  {
    hide Load;
  }

  /** The default path of `op r, imm`: a second literal, and `r` becomes the node
      `op(r, lit)`. */
  lemma ImmDefault(e: Engine, inst: Inst, r: string, n: nat)
    requires Ready(e) && r in RegNames && |inst.oprd| >= 2
    requires IsRegOpd(inst.oprd[0], r) && inst.oprd[1].ty == Core.Imm
    requires Hex.ParseHex(inst.oprd[1].Field(0)) == Some(n)
    requires CtxAt(e.ctx, r) in e.heap.vals
    ensures Generic(e, inst, inst.oprd[0], inst.oprd[1]) == Ok(Next(OpLit(e, inst.opcstr, r, n)))
  {
    hide Load, Save, Fetch, GetReg, SetReg;
    FetchImm(e, inst, inst.oprd[1], n);
  }

  /** As written, once the first chain lets an instruction go on, the second chain
      runs on the state it left. */
  lemma AsWrittenThen(e: Engine, inst: Inst, e1: Engine)
    requires Ready(e) && |inst.oprd| >= 2
    requires FirstChain(e, inst, inst.oprd[0], inst.oprd[1]) == Ok(Next(e1))
    ensures Ready(e1)
    ensures TwoAsWritten(e, inst) == SecondChain(e1, inst, inst.oprd[0], inst.oprd[1])
  {
  }

  /** As written, `mov r, imm` also runs the default path after the `mov` branch:
      the literal goes to `r`, and then `r` is replaced by `mov(r, lit)` over a
      second copy. */
  lemma MovAsWritten(e: Engine, inst: Inst, r: string, n: nat)
    requires Ready(e) && TwoShape(inst, "mov") && r in RegNames
    requires IsRegOpd(inst.oprd[0], r) && inst.oprd[1].ty == Core.Imm
    requires Hex.ParseHex(inst.oprd[1].Field(0)) == Some(n)
    ensures TwoAsWritten(e, inst) == Ok(Next(OpLit(PutLit(e, r, n), "mov", r, n)))
  {
    hide Mov, Generic, Lea, Xchg, Shift, Logic, PutLit, OpLit;
    MovImmBranch(e, inst, r, n);
    AsWrittenThen(e, inst, PutLit(e, r, n));
    ImmDefault(PutLit(e, r, n), inst, r, n);
  }

  /** So `r` ends as the node `mov(lit, lit)` over two copies of the literal instead
      of the literal itself. */
  lemma MovTwiceNotLit(e: Engine, r: string, n: nat)
    ensures var e' := OpLit(PutLit(e, r, n), "mov", r, n);
            var s := e.heap.seed;
            && e'.ctx[r] == s + 3
            && Node(e'.heap, s + 3, "mov", [s + 1, s + 2])
            && Lit(e'.heap, s + 1, n) && Lit(e'.heap, s + 2, n)
            && !Lit(e'.heap, e'.ctx[r], n)
  {
  }

  /** As written, `mov a, b` between 32-bit registers copies the reference and then
      runs the default path: `a` becomes the node `mov(b, b)` over the old `b`. It
      fails exactly when the old `b` is NULL. */
  lemma MovRegRegAsWritten(e: Engine, inst: Inst, a: string, b: string)
    requires Ready(e) && TwoShape(inst, "mov") && a in RegNames && b in RegNames
    requires IsRegOpd(inst.oprd[0], a) && IsRegOpd(inst.oprd[1], b)
    ensures var y := CtxAt(e.ctx, b);
            var r := TwoAsWritten(e, inst);
            && (r.Ok? <==> y in e.heap.vals)
            && (r.Ok? ==>
                  && r.value.Next?
                  && r.value.e.ctx == e.ctx[a := e.heap.seed + 1]
                  && Node(r.value.e.heap, e.heap.seed + 1, "mov", [y, y]))
  {
    hide Mov, Generic, Lea, Xchg, Shift, Logic;
    MovRegReg(e, inst, a, b);
    var e1 := e.(ctx := e.ctx[a := CtxAt(e.ctx, b)]);
    AsWrittenThen(e, inst, e1);
    GenericRegReg(e1, inst, a, b);
  }

  /** As written, `xchg a, b` between 32-bit registers swaps the references and then
      runs the default path: `b` holds the old `a`, and `a` becomes the node
      `xchg(old b, old a)`. It fails exactly when the old `b` is NULL, or is not a
      SYMBOL while the old `a` is NULL. */
  lemma XchgAsWritten(e: Engine, inst: Inst, a: string, b: string)
    requires Ready(e) && TwoShape(inst, "xchg") && a in RegNames && b in RegNames
    requires IsRegOpd(inst.oprd[0], a) && IsRegOpd(inst.oprd[1], b)
    ensures var x := CtxAt(e.ctx, a);
            var y := CtxAt(e.ctx, b);
            var r := TwoAsWritten(e, inst);
            && (r.Ok? <==> y in e.heap.vals && (e.heap.vals[y].kind == Symbol || x in e.heap.vals))
            && (r.Ok? ==>
                  && r.value.Next?
                  && r.value.e.heap.seed == e.heap.seed + 1
                  && r.value.e.ctx == e.ctx[b := x][a := e.heap.seed + 1]
                  && Node(r.value.e.heap, e.heap.seed + 1, "xchg", [y, x]))
  {
    hide Mov, Generic, Lea, Xchg, Shift, Logic;
    XchgRegs(e, inst, a, b);
    var e1 := e.(ctx := e.ctx[b := CtxAt(e.ctx, a)][a := CtxAt(e.ctx, b)]);
    AsWrittenThen(e, inst, e1);
    GenericRegReg(e1, inst, a, b);
  }

  /** So, as written, exchanging twice does not give the registers back: after a
      successful pair `a` holds a fresh node, never the old `a`. */
  lemma XchgTwiceAsWritten(e: Engine, inst: Inst, a: string, b: string)
    requires Ready(e) && TwoShape(inst, "xchg") && a in RegNames && b in RegNames
    requires IsRegOpd(inst.oprd[0], a) && IsRegOpd(inst.oprd[1], b)
    requires TwoAsWritten(e, inst).Ok? && TwoAsWritten(e, inst).value.Next?
    ensures var e1 := TwoAsWritten(e, inst).value.e;
            var r := TwoAsWritten(e1, inst);
            r.Ok? ==> r.value.Next? && CtxAt(r.value.e.ctx, a) != CtxAt(e.ctx, a)
  {
    assert CtxAt(e.ctx, a) <= e.heap.seed;
    hide TwoAsWritten, Wf, RangeMap.Sorted;
    XchgAsWritten(e, inst, a, b);
    var e1 := TwoAsWritten(e, inst).value.e;
    XchgAsWritten(e1, inst, a, b);
  }

  /** The loop as written runs `mov r, imm` through both chains; the corrected loop
      leaves the literal in `r`. */
  lemma RunMovImm(e: Engine, inst: Inst, r: string, n: nat)
    requires Ready(e) && TwoShape(inst, "mov") && r in RegNames
    requires IsRegOpd(inst.oprd[0], r) && inst.oprd[1].ty == Core.Imm
    requires Hex.ParseHex(inst.oprd[1].Field(0)) == Some(n)
    ensures Run(e, [inst], 0) == Ok((0, OpLit(PutLit(e, r, n), "mov", r, n)))
    ensures RunFixed(e, [inst], 0) == Ok((0, PutLit(e, r, n)))
  {
    hide Run, RunFixed, SymExec.Step, StepFixed, Two, TwoAsWritten, PutLit, OpLit, Wf, RangeMap.Sorted;
    MovAsWritten(e, inst, r, n);
    MovImmFixed(e, inst, r, n);
    FirstChainHasEffect();
    StepTwo(e, inst);
    RunOne(e, inst);
  }

  /** No opcode of the first chain is one the loop skips. */
  lemma FirstChainHasEffect()
    ensures forall o | o in FirstChainOps :: o !in NoEffect
  {
  }

  /** A one-instruction trace ends as its one step does. */
  lemma RunOne(e: Engine, inst: Inst)
    requires Ready(e)
    ensures var f := SymExec.Step(e, inst);
            Run(e, [inst], 0) == if f.Abort? then Abort(f.why) else Ok((if f.value.Halt? then 1 else 0, f.value.e))
    ensures var f := StepFixed(e, inst);
            RunFixed(e, [inst], 0) == if f.Abort? then Abort(f.why) else Ok((if f.value.Halt? then 1 else 0, f.value.e))
  {
    hide SymExec.Step, StepFixed, Wf, RangeMap.Sorted;
  }

  /** A two-operand instruction with an effect goes to the two-operand case: the
      chain as written in `Step`, the single chain in `StepFixed`. */
  lemma StepTwo(e: Engine, inst: Inst)
    requires Ready(e) && inst.oprnum == 2 && inst.opcstr !in NoEffect
    ensures SymExec.Step(e, inst) == TwoAsWritten(e, inst)
    ensures StepFixed(e, inst) == Two(e, inst)
  {
    hide Two, TwoAsWritten, One, Three;
  }

  /** The corrected `mov r, imm` stores the one literal in `r`. */
  lemma MovImmFixed(e: Engine, inst: Inst, r: string, n: nat)
    requires Ready(e) && TwoShape(inst, "mov") && r in RegNames
    requires IsRegOpd(inst.oprd[0], r) && inst.oprd[1].ty == Core.Imm
    requires Hex.ParseHex(inst.oprd[1].Field(0)) == Some(n)
    ensures Two(e, inst) == Ok(Next(PutLit(e, r, n)))
  {
    hide Mov, Generic, Lea, Xchg, Shift, Logic, PutLit;
    MovImmBranch(e, inst, r, n);
  }

  /** On a trace without a two-operand `mov`, `lea`, `xchg`, `shl`, `shr` or `and`,
      the loop as written and the corrected loop agree. */
  lemma {:induction false} RunAgrees(e: Engine, xs: seq<Inst>, i: nat)
    requires Ready(e) && i <= |xs|
    requires forall k | i <= k < |xs| :: !(xs[k].oprnum == 2 && xs[k].opcstr in FirstChainOps)
    ensures Run(e, xs, i) == RunFixed(e, xs, i)
    decreases |xs| - i
  {
    hide SymExec.Step, StepFixed;
    if i < |xs| {
      var f := SymExec.Step(e, xs[i]);
      if f.Ok? && f.value.Next? {
        RunAgrees(f.value.e, xs, i + 1);
      }
    }
  }

  // ---------------------------------------------------------------- hybrid fast paths

  /** `shl`/`shr` of a hybrid register by an immediate moves the register's
      children in place: registers and memory keep their references, and the heap is
      the shifted one. */
  lemma ShiftHybridEffect(e: Engine, op0: Operand, op1: Operand, left: bool, r: string, n: nat)
    requires Ready(e) && IsRegOpd(op0, r) && r in RegNames
    requires Hex.ParseHex(op1.Field(0)) == Some(n)
    ensures var x := CtxAt(e.ctx, r);
            var off := HybridOps.ToInt32(n);
            var h' := if left then HybridOps.ShlHybrid(e.heap, x, off) else HybridOps.ShrHybrid(e.heap, x, off);
            var res := ShiftHybrid(e, op0, op1, left);
            && (res.Ok? <==> h'.Ok?)
            && (res.Ok? ==> res.value == Next(e.(heap := h'.value)))
  {
  }

  /** The status test of `and`/`or` on a hybrid register `r` with an immediate `n`:
      it runs over the children of `r` on the heap holding the new literal. */
  function FoldStatus(e: Engine, r: string, n: nat, isAnd: bool): Result<bool>
    requires CtxAt(e.ctx, r) in e.heap.vals
  {
    HybridOps.Status(WithLit(e.heap, n), e.heap.vals[CtxAt(e.ctx, r)].childs, 0, ConcreteLit(n).bits, isAnd)
  }

  /** The folded bits of `and`/`or` on a hybrid register `r` with an immediate `n`. */
  function FoldBits(e: Engine, r: string, n: nat, isAnd: bool): Result<seq<bool>>
    requires CtxAt(e.ctx, r) in e.heap.vals
  {
    HybridOps.Fold(WithLit(e.heap, n), e.heap.vals[CtxAt(e.ctx, r)].childs, 0, ConcreteLit(n).bits, isAnd,
                   HybridOps.Clear(32))
  }

  /** `and`/`or` of a hybrid register with an immediate: after the literal is made,
      a failed status test writes nothing. */
  lemma FoldHybridKeeps(e: Engine, op0: Operand, op1: Operand, isAnd: bool, r: string, n: nat)
    requires Ready(e) && IsRegOpd(op0, r) && r in RegNames
    requires Hex.ParseHex(op1.Field(0)) == Some(n) && CtxAt(e.ctx, r) in e.heap.vals
    ensures FoldStatus(e, r, n, isAnd).Abort? ==> FoldHybrid(e, op0, op1, isAnd).Abort?
    ensures FoldStatus(e, r, n, isAnd) == Ok(false) ==>
              FoldHybrid(e, op0, op1, isAnd) == Ok(Next(e.(heap := WithLit(e.heap, n))))
  {
    hide HybridOps.Status, HybridOps.Fold, HybridOps.Folded, Wf, RangeMap.Sorted;
  }

  /** `and`/`or` of a hybrid register with an immediate: when the status test
      passes, the register becomes a fresh CONCRETE holding the folded bits. */
  lemma FoldHybridWrites(e: Engine, op0: Operand, op1: Operand, isAnd: bool, r: string, n: nat)
    requires Ready(e) && IsRegOpd(op0, r) && r in RegNames
    requires Hex.ParseHex(op1.Field(0)) == Some(n) && CtxAt(e.ctx, r) in e.heap.vals
    requires FoldStatus(e, r, n, isAnd) == Ok(true) && FoldBits(e, r, n, isAnd).Ok?
    ensures var h := WithLit(e.heap, n);
            FoldHybrid(e, op0, op1, isAnd) ==
              Ok(Next(e.(heap := Heap(h.vals[h.seed + 1 := HybridOps.Folded(FoldBits(e, r, n, isAnd).value)], h.seed + 1),
                         ctx := e.ctx[r := h.seed + 1])))
  {
    hide HybridOps.Status, HybridOps.Fold, HybridOps.Folded, Wf, RangeMap.Sorted;
  }

  // ---------------------------------------------------------------- push and pop

  /** A one-operand instruction `opc r` on a 32-bit register. */
  predicate OneReg(inst: Inst, opc: string, r: string) {
    && inst.opcstr == opc && inst.oprnum == 1 && |inst.oprd| >= 1
    && IsRegOpd(inst.oprd[0], r) && inst.oprd[0].bit == 32 && r in RegNames
  }

  /** `push r` stores the register's value as four bytes at the write address. */
  lemma PushReg(e: Engine, inst: Inst, r: string)
    requires Ready(e) && OneReg(inst, "push", r)
    ensures One(e, inst) == (var w := WriteMem(e, inst.waddr, 4, CtxAt(e.ctx, r));
                             if w.Ok? then Ok(Next(w.value)) else Abort(w.why))
  {
    hide Pop, Unary, Load, WriteMem;
  }

  /** `pop r` loads four bytes at the read address into the register. */
  lemma PopReg(e: Engine, inst: Inst, r: string)
    requires Ready(e) && OneReg(inst, "pop", r)
    ensures One(e, inst) == (var t := ReadMem(e, inst.raddr, 4);
                             if t.Ok? then Ok(Next(t.value.0.(ctx := t.value.0.ctx[r := t.value.1])))
                             else Abort(t.why))
  {
    hide Push, Unary, Save, ReadMem;
  }

  /** `push a` followed by `pop b` reading where the push wrote moves the value of `a` to
      `b`, provided the push stored a whole range: the exact one, a new one, or one
      covering the stored ranges it meets. */
  lemma PushPop(e: Engine, push: Inst, pop: Inst, a: string, b: string)
    requires Ready(e) && OneReg(push, "push", a) && OneReg(pop, "pop", b)
    requires pop.raddr == push.waddr
    requires var c := WriteCase(e.mem, Access(push.waddr, 4)); c.Exact? || c.Fresh? || c.Narrower?
    ensures One(e, push).Ok? && One(e, push).value.Next?
    ensures var e1 := One(e, push).value.e;
            One(e1, pop) == Ok(Next(e1.(ctx := e1.ctx[b := CtxAt(e.ctx, a)])))
  {
    hide One, Push, Pop, Unary;
    PushReg(e, push, a);
    ReadAfterWrite(e, push.waddr, 4, CtxAt(e.ctx, a));
    var e1 := One(e, push).value.e;
    PopReg(e1, pop, b);
  }

  // ---------------------------------------------------------------- runs

  /** `symexec` only looks at the instructions from the current index on. */
  lemma {:induction false} RunShift(e: Engine, xs: seq<Inst>, i: nat, ys: seq<Inst>, j: nat)
    requires Ready(e) && i <= |xs| && j <= |ys| && xs[i..] == ys[j..]
    ensures Run(e, xs, i) == Run(e, ys, j)
    decreases |xs| - i
  {
    hide SymExec.Step;
    if i < |xs| {
      assert xs[i] == xs[i..][0] == ys[j];
      assert xs[i + 1..] == xs[i..][1..] == ys[j + 1..];
      var f := SymExec.Step(e, xs[i]);
      if f.Ok? && f.value.Next? {
        RunShift(f.value.e, xs, i + 1, ys, j + 1);
      }
    }
  }

  /** Running `a + b` runs `a`, then, if `a` ran to its end, `b` from the state `a`
      left; if `a` stopped or failed, so does the whole run. */
  lemma {:induction false} RunAppend(e: Engine, a: seq<Inst>, b: seq<Inst>, i: nat)
    requires Ready(e) && i <= |a|
    ensures var r := Run(e, a, i);
            Run(e, a + b, i) == if r.Ok? && r.value.0 == 0 then Run(r.value.1, b, 0) else r
    decreases |a| - i
  {
    hide SymExec.Step;
    if i == |a| {
      RunShift(e, a + b, i, b, 0);
    } else {
      assert (a + b)[i] == a[i];
      var f := SymExec.Step(e, a[i]);
      if f.Ok? && f.value.Next? {
        RunAppend(f.value.e, a, b, i + 1);
      }
    }
  }

  /** A trace of tests, compares, jumps, calls and returns leaves the state as it was. */
  lemma {:induction false} RunNoEffect(e: Engine, xs: seq<Inst>, i: nat)
    requires Ready(e) && i <= |xs|
    requires forall k | i <= k < |xs| :: xs[k].opcstr in NoEffect
    ensures Run(e, xs, i) == Ok((0, e))
    decreases |xs| - i
  {
    hide SymExec.Step;
    if i < |xs| {
      RunNoEffect(e, xs, i + 1);
    }
  }
}
