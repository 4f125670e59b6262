/** The state of `SEEngine` and its register and memory accessors
    (mg-symengine.hpp:5-68, mg-symengine.cpp:376-653). */
module SymEngine {
  import opened Wrappers
  import opened Word
  import opened SymValue
  import RangeMap
  import Hex
  import Core

  /** `ctx`, `mem`, `meminput` and `reginput`, together with the value heap that
      every `new Value` allocates from. The iterators `start`/`end` become the
      instruction sequence handed to the interpreter. */
  datatype Engine = Engine(heap: Heap, ctx: map<string, Ref>, mem: RangeMap.Map,
                           meminput: map<Ref, RangeMap.Range>, reginput: map<Ref, string>)

  const RegNames: set<string> := {"eax", "ebx", "ecx", "edx", "esi", "edi", "esp", "ebp"}

  /** `ctx` holds exactly the eight 32-bit names, so `ctx[name]` never inserts. */
  ghost predicate CtxValid(e: Engine) {
    forall n :: n in e.ctx <==> n in RegNames
  }

  /** `ctx[n]`; every name looked up is one of the eight, which the constructor
      put there, so the insertion `operator[]` would make never happens. */
  function CtxAt(ctx: map<string, Ref>, n: string): Ref {
    if n in ctx then ctx[n] else NULL
  }

  /** Every reference the engine holds was handed out already (or is NULL). */
  predicate Bounded(e: Engine) {
    && (forall n | n in e.ctx :: e.ctx[n] <= e.heap.seed)
    && (forall i | 0 <= i < |e.mem| :: e.mem[i].val <= e.heap.seed)
  }

  /** Every reference the engine holds, directly or as a child of a hybrid, exists. */
  ghost predicate Wf(e: Engine) {
    Bounded(e) && ChildBounded(e.heap)
  }

  /** `SEEngine()`: every register slot NULL, memory empty. The heap is passed in
      because the id counter is shared by every engine of a run. */
  function NewEngine(h: Heap): (e: Engine)
    ensures CtxValid(e) && Bounded(e)
    ensures forall n | n in e.ctx :: e.ctx[n] == NULL
    ensures e.mem == [] && e.meminput == map[] && e.reginput == map[] && e.heap == h
  {
    Engine(h, map n | n in RegNames :: NULL, [], map[], map[])
  }

  /** `getValue(s)`: `ctx[s]`; `operator[]` inserts NULL for a name not yet present. */
  function GetValue(e: Engine, s: string): (res: (Engine, Ref))
    ensures s in e.ctx ==> res == (e, e.ctx[s])
    ensures s !in e.ctx ==> res.1 == NULL && res.0 == e.(ctx := e.ctx[s := NULL])
  {
    if s in e.ctx then (e, e.ctx[s]) else (e.(ctx := e.ctx[s := NULL]), NULL)
  }

  /** The position of `n` in `names`. */
  function IndexIn(names: seq<string>, n: string): (i: nat)
    requires n in names
    ensures i < |names| && names[i] == n
  {
    if names[0] == n then 0 else 1 + IndexIn(names[1..], n)
  }

  /** The position of a 32-bit register in the order `initAllRegSymol` allocates. */
  function RegIndex(n: string): (i: nat)
    requires n in RegNames
    ensures i < 8 && Core.GeneralRegs[i] == n
  {
    assert n in Core.GeneralRegs by {
      var g := Core.GeneralRegs;
      assert g[0] == "eax" && g[1] == "ebx" && g[2] == "ecx" && g[3] == "edx";
      assert g[4] == "esi" && g[5] == "edi" && g[6] == "esp" && g[7] == "ebp";
    }
    IndexIn(Core.GeneralRegs, n)
  }

  /** One `new Value(SYMBOL)` for the name at position `i`: the next id becomes the
      name's slot and is recorded in `reginput` under the name. */
  function Step(e: Engine, n: string): Engine {
    var (h', v) := Alloc(e.heap, SymbolValue(32));
    e.(heap := h', ctx := e.ctx[n := v], reginput := e.reginput[v := n])
  }

  /** `Step` for every name from position `i` on, in order. */
  function InitRegs(e: Engine, names: seq<string>, i: nat): (r: Engine)
    decreases |names| - i
  {
    if i >= |names| then e else InitRegs(Step(e, names[i]), names, i + 1)
  }

  /** The names are pairwise distinct. */
  predicate Distinct(names: seq<string>) {
    forall i, j | 0 <= i < j < |names| :: names[i] != names[j]
  }

  /** The heap gains one SYMBOL of width 32 per remaining name, with the next ids in
      order; memory and the memory inputs stay. */
  lemma {:induction false} InitRegsHeap(e: Engine, names: seq<string>, i: nat)
    requires HeapValid(e.heap) && i <= |names|
    ensures var r := InitRegs(e, names, i);
            var s := e.heap.seed;
            && r.heap.seed == s + |names| - i && HeapValid(r.heap) && Grows(e.heap, r.heap)
            && r.mem == e.mem && r.meminput == e.meminput
            && (forall k | s < k <= s + |names| - i :: k in r.heap.vals && r.heap.vals[k] == SymbolValue(32))
    decreases |names| - i
  {
    if i < |names| {
      var e1 := Step(e, names[i]);
      InitRegsHeap(e1, names, i + 1);
      GrowsTrans(e.heap, e1.heap, InitRegs(e1, names, i + 1).heap);
    }
  }

  /** The name at position `j` gets the fresh id `j - i` places after the counter. */
  lemma {:induction false} InitRegsSlot(e: Engine, names: seq<string>, i: nat, j: nat)
    requires Distinct(names) && i <= j < |names|
    ensures var r := InitRegs(e, names, i);
            names[j] in r.ctx && r.ctx[names[j]] == e.heap.seed + 1 + (j - i)
    decreases |names| - i
  {
    var e1 := Step(e, names[i]);
    if i < j {
      InitRegsSlot(e1, names, i + 1, j);
    } else {
      InitRegsKeep(e1, names, i + 1, names[i]);
    }
  }

  /** The slots are the old ones and the remaining names'; a slot not named keeps
      its value. */
  lemma {:induction false} InitRegsKeep(e: Engine, names: seq<string>, i: nat, n: string)
    ensures var r := InitRegs(e, names, i);
            && (n in r.ctx <==> n in e.ctx || exists j | i <= j < |names| :: names[j] == n)
            && (n in e.ctx && (forall j | i <= j < |names| :: names[j] != n) ==> r.ctx[n] == e.ctx[n])
    decreases |names| - i
  {
    if i < |names| {
      InitRegsKeep(Step(e, names[i]), names, i + 1, n);
    }
  }

  /** `reginput` records the fresh id of position `j` under the name at `j`; older
      records stay. */
  lemma {:induction false} InitRegsInput(e: Engine, names: seq<string>, i: nat, k: Ref)
    requires i <= |names|
    requires (k in e.reginput && k <= e.heap.seed) || e.heap.seed < k <= e.heap.seed + |names| - i
    ensures var r := InitRegs(e, names, i);
            && k in r.reginput
            && r.reginput[k] == if k <= e.heap.seed then e.reginput[k] else names[i + (k - e.heap.seed - 1)]
    decreases |names| - i
  {
    if i < |names| {
      InitRegsInput(Step(e, names[i]), names, i + 1, k);
    }
  }

  lemma GeneralRegsDistinct()
    ensures Distinct(Core.GeneralRegs)
    ensures forall i | 0 <= i < 8 :: Core.GeneralRegs[i] in RegNames && RegIndex(Core.GeneralRegs[i]) == i
  {
    var g := Core.GeneralRegs;
    assert g[0] == "eax" && g[1] == "ebx" && g[2] == "ecx" && g[3] == "edx";
    assert g[4] == "esi" && g[5] == "edi" && g[6] == "esp" && g[7] == "ebp";
  }

  /** `initAllRegSymol`: eight `new Value(SYMBOL)` with the next eight ids, in the
      order eax, ebx, ecx, edx, esi, edi, esp, ebp; each becomes its register's slot
      and is recorded in `reginput` under the register's name. */
  function InitAllRegSymbol(e: Engine): (r: Engine)
    requires CtxValid(e) && HeapValid(e.heap)
    ensures CtxValid(r) && HeapValid(r.heap) && Grows(e.heap, r.heap) && r.heap.seed == e.heap.seed + 8
    ensures r.mem == e.mem && r.meminput == e.meminput
  {
    InitAllRegKeys(e);
    InitRegsHeap(e, Core.GeneralRegs, 0);
    InitRegs(e, Core.GeneralRegs, 0)
  }

  /** Each register's new slot is a fresh SYMBOL of width 32 that `reginput` records
      under the register's name. */
  lemma InitAllRegSymbolFresh(e: Engine, n: string)
    requires CtxValid(e) && HeapValid(e.heap) && n in RegNames
    ensures var r := InitAllRegSymbol(e);
            var v := r.ctx[n];
            && v !in e.heap.vals && v in r.heap.vals && r.heap.vals[v] == SymbolValue(32)
            && v in r.reginput && r.reginput[v] == n
  {
    var r := InitRegs(e, Core.GeneralRegs, 0);
    var k := e.heap.seed + 1 + RegIndex(n);
    assert r.ctx[n] == k by { InitAllRegSlot(e, n); }
    assert k !in e.heap.vals && k in r.heap.vals && r.heap.vals[k] == SymbolValue(32) by {
      InitRegsHeap(e, Core.GeneralRegs, 0);
    }
    assert k in r.reginput && r.reginput[k] == n by {
      InitRegsInput(e, Core.GeneralRegs, 0, k);
    }
  }

  /** No two registers share their fresh symbol. */
  lemma InitAllRegSymbolDistinct(e: Engine, n: string, m: string)
    requires CtxValid(e) && HeapValid(e.heap) && n in RegNames && m in RegNames && n != m
    ensures InitAllRegSymbol(e).ctx[n] != InitAllRegSymbol(e).ctx[m]
  {
    InitAllRegSymbolFresh(e, n);
    InitAllRegSymbolFresh(e, m);
  }

  /** After `initAllRegSymol` the slots are exactly the eight names. */
  lemma InitAllRegKeys(e: Engine)
    requires CtxValid(e)
    ensures CtxValid(InitRegs(e, Core.GeneralRegs, 0))
  {
    var r := InitRegs(e, Core.GeneralRegs, 0);
    GeneralRegsDistinct();
    forall n ensures n in r.ctx <==> n in RegNames {
      InitRegsKeep(e, Core.GeneralRegs, 0, n);
      if n in RegNames {
        assert Core.GeneralRegs[RegIndex(n)] == n;
      }
    }
  }

  /** Each register's slot holds the fresh id of its position in the allocation order. */
  lemma InitAllRegSlot(e: Engine, n: string)
    requires n in RegNames
    ensures var r := InitRegs(e, Core.GeneralRegs, 0);
            n in r.ctx && r.ctx[n] == e.heap.seed + 1 + RegIndex(n)
  {
    GeneralRegsDistinct();
    InitRegsSlot(e, Core.GeneralRegs, 0, RegIndex(n));
  }

  // ---------------------------------------------------------------- registers

  /** The three sub-word bit ranges the engine handles: [0,15], [0,7] and [8,15]. */
  predicate IsPart(lo: int, hi: int) {
    (lo == 0 && hi == 15) || (lo == 0 && hi == 7) || (lo == 8 && hi == 15)
  }

  /** The mask `readReg` ands the owner with: ones exactly on bits lo..hi. */
  function ReadMask(lo: int, hi: int): nat
    requires IsPart(lo, hi)
  {
    if hi == 15 && lo == 0 then 0x0000ffff else if hi == 7 then 0x000000ff else 0x0000ff00
  }

  /** The mask `writeReg` ands the owner with: zeros exactly on bits lo..hi. */
  function KeepMask(lo: int, hi: int): nat
    requires IsPart(lo, hi)
  {
    if hi == 15 && lo == 0 then 0xffff0000 else if hi == 7 then 0xffffff00 else 0xffff00ff
  }

  /** Each read mask and its write mask split the 32 bits of the owner between them,
      and the read mask has ones exactly on bits lo..hi. */
  lemma MasksComplement(lo: int, hi: int)
    requires IsPart(lo, hi)
    ensures ReadMask(lo, hi) + KeepMask(lo, hi) == 0xffff_ffff
    ensures forall k: nat | k < 32 :: NatBit(ReadMask(lo, hi), k) <==> lo <= k <= hi
  {
    Pow2Values();
    forall k: nat | k < 32
      ensures NatBit(ReadMask(lo, hi), k) <==> lo <= k <= hi
    {
      MaskBits(ReadMask(lo, hi), lo, hi, k);
    }
  }

  /** The number with ones on bits lo..hi and zeros elsewhere below bit 32. */
  lemma {:induction false} MaskBits(m: nat, lo: nat, hi: nat, k: nat)
    requires m == Pow2(hi + 1) - Pow2(lo) && lo <= hi + 1
    ensures NatBit(m, k) <==> lo <= k <= hi
    decreases k
  {
    if lo == hi + 1 {
      ZeroNoBits(k);
    } else if k == 0 {
      PowEven(hi + 1);
      if lo > 0 { PowEven(lo); }
    } else {
      var m' := m / 2;
      if lo == 0 {
        assert m' == Pow2(hi) - Pow2(0) by { PowHalf(hi + 1); }
        if hi == 0 {
          ZeroNoBits(k - 1);
        } else {
          MaskBits(m', 0, hi - 1, k - 1);
        }
      } else {
        assert m' == Pow2(hi) - Pow2(lo - 1) by { PowHalf(hi + 1); PowHalf(lo); }
        MaskBits(m', lo - 1, hi - 1, k - 1);
      }
    }
  }

  lemma Pow2Values()
    ensures Pow2(8) == 256 && Pow2(16) == 65536
  {
    assert Pow2(2) == 4;
    assert Pow2(4) == 16 by { assert Pow2(3) == 8; }
    assert Pow2(6) == 64 by { assert Pow2(5) == 32; }
    assert Pow2(8) == 256 by { assert Pow2(7) == 128; }
    assert Pow2(10) == 1024 by { assert Pow2(9) == 512; }
    assert Pow2(12) == 4096 by { assert Pow2(11) == 2048; }
    assert Pow2(14) == 16384 by { assert Pow2(13) == 8192; }
    assert Pow2(16) == 65536 by { assert Pow2(15) == 32768; }
  }

  lemma PowEven(k: nat)
    requires k >= 1
    ensures Pow2(k) % 2 == 0
  {}

  lemma PowHalf(k: nat)
    requires k >= 1
    ensures Pow2(k) == 2 * Pow2(k - 1)
  {}

  /** The nodes `readReg` builds for a sub-register that has no child of its own:
      `and(owner, mask)` and, for the high byte, `shr(..., 0x8)`. */
  predicate Extracted(h: Heap, h': Heap, r: Ref, ov: Ref, lo: nat, mask: nat) {
    var s := h.seed;
    && Lit(h', s + 1, mask) && Node(h', s + 2, "and", [ov, s + 1])
    && (lo == 0 ==> r == s + 2 && h'.seed == s + 2)
    && (lo != 0 ==> r == s + 4 && h'.seed == s + 4 && Lit(h', s + 3, lo) && Node(h', r, "shr", [s + 2, s + 3]))
  }

  /** `buildop2("and", owner, mask)`, shifted right by `lo` when that is not 0. */
  function Extract(h: Heap, ov: Ref, lo: nat, mask: nat): (res: Result<(Heap, Ref)>)
    requires ov <= h.seed
    ensures res.Ok? <==> ov in h.vals
    ensures res.Ok? ==> Extracted(h, res.value.0, res.value.1, ov, lo, mask)
  {
    if lo == 0 then WithConst(h, "and", ov, mask) else ExtractShifted(h, ov, lo, mask)
  }

  function ExtractShifted(h: Heap, ov: Ref, lo: nat, mask: nat): (res: Result<(Heap, Ref)>)
    requires ov <= h.seed && lo != 0
    ensures res.Ok? <==> ov in h.vals
    ensures res.Ok? ==> Extracted(h, res.value.0, res.value.1, ov, lo, mask)
  {
    var (h1, a) :- WithConst(h, "and", ov, mask);
    WithConst(h1, "shr", a, lo)
  }

  /** The 16- and 8-bit branches of `readReg` once the owner is known: the owner's
      child at exactly [lo,hi] if it has one, otherwise the bits extracted with a
      mask (and a shift for the high byte). */
  function ReadPart(h: Heap, ov: Ref, lo: int, hi: int): (res: Result<(Heap, Ref)>)
    requires IsPart(lo, hi) && ov <= h.seed
    ensures res.Ok? <==> ov in h.vals
    ensures res.Ok? && RangeMap.Range(lo, hi) in RangeMap.Keys(h.vals[ov].childs) ==>
              res.value.0 == h && RangeMap.Entry(RangeMap.Range(lo, hi), res.value.1) in h.vals[ov].childs
    ensures res.Ok? && RangeMap.Range(lo, hi) !in RangeMap.Keys(h.vals[ov].childs) ==>
              Extracted(h, res.value.0, res.value.1, ov, lo, ReadMask(lo, hi))
  {
    if ov !in h.vals then Abort("NULL value dereferenced")
    else if HasVal(h, ov, lo, hi).value then Ok((h, ReadVal(h, ov, lo, hi).value))
    else Extract(h, ov, lo, ReadMask(lo, hi))
  }

  /** `readReg`: a 32-bit name reads its slot; a 16- or 8-bit name reads the bits
      its layout assigns it in the owning 32-bit register; any other name reads
      NULL. Only the heap can change: `ctx` is not part of the result. */
  function ReadReg(e: Engine, s: string): (res: Result<(Heap, Ref)>)
    requires Bounded(e)
    ensures s in RegNames ==> res == Ok((e.heap, CtxAt(e.ctx, s)))
    ensures Core.SubRegister(s).None? ==> res == Ok((e.heap, NULL))
    ensures Core.SubRegister(s).Some? && s !in RegNames ==>
              var (o, lo, hi) := Core.SubRegister(s).value;
              IsPart(lo, hi) && o in RegNames && res == ReadPart(e.heap, CtxAt(e.ctx, o), lo, hi)
  {
    match Core.SubRegister(s)
    case None => Ok((e.heap, NULL))
    case Some((o, lo, hi)) =>
      if hi == 31 then Ok((e.heap, CtxAt(e.ctx, o)))
      else ReadPart(e.heap, CtxAt(e.ctx, o), lo, hi)
  }

  /** Every value with an id up to `h`'s counter is still there, unchanged. */
  predicate Keeps(h: Heap, h': Heap) {
    forall x | x in h.vals && x <= h.seed :: x in h'.vals && h'.vals[x] == h.vals[x]
  }

  /** The nodes `writeReg` builds for `ax` and `al`: `or(and(owner, keep), v)`. */
  predicate MergedLow(h: Heap, h': Heap, r: Ref, ov: Ref, v: Ref, keep: nat) {
    var s := h.seed;
    && r == s + 3 && h'.seed == s + 3
    && Lit(h', s + 1, keep) && Node(h', s + 2, "and", [ov, s + 1]) && Node(h', r, "or", [s + 2, v])
  }

  /** `and(owner, keep)` then `or` with the written value; the value is looked at
      only when the masked owner is not a SYMBOL. */
  function MergeLow(h: Heap, ov: Ref, v: Ref, keep: nat): (res: Result<(Heap, Ref)>)
    requires ov <= h.seed && v <= h.seed
    ensures res.Ok? <==> ov in h.vals && (h.vals[ov].kind == Symbol || v in h.vals)
    ensures res.Ok? ==> MergedLow(h, res.value.0, res.value.1, ov, v, keep)
    ensures res.Ok? ==> Keeps(h, res.value.0)
  {
    var (h1, a) :- WithConst(h, "and", ov, keep);
    BuildOp2(h1, "or", a, v)
  }

  /** The nodes `writeReg` builds for `ah`: `or(and(owner, 0xffff00ff), shl(v, 0x8))`. */
  predicate MergedHigh(h: Heap, h': Heap, r: Ref, ov: Ref, v: Ref) {
    var s := h.seed;
    && Lit(h', s + 1, 8) && Node(h', s + 2, "shl", [v, s + 1])
    && MergedLow(Heap(h'.vals, s + 2), h', r, ov, s + 2, 0xffff00ff)
  }

  /** `shl(v, 0x8)` first, then merged into the owner like the low parts. */
  function ShiftMerge(h: Heap, ov: Ref, v: Ref): (res: Result<(Heap, Ref)>)
    requires ov <= h.seed && v <= h.seed
    ensures res.Ok? <==> ov in h.vals && v in h.vals
    ensures res.Ok? ==> MergedHigh(h, res.value.0, res.value.1, ov, v)
  {
    var (h2, sv) :- WithConst(h, "shl", v, 8);
    MergeLow(h2, ov, sv, 0xffff00ff)
  }

  /** The `ah`-family branch of `writeReg`. The owner is looked at first; only a
      CONCRETE owner makes the value's kind matter: a SYMBOL written into it splits
      it with `writeVal`; anything else is shifted into place and merged. */
  function WriteHigh(h: Heap, ov: Ref, v: Ref): (res: Result<(Heap, Ref)>)
    requires ov <= h.seed && v <= h.seed
    ensures ov !in h.vals || v !in h.vals ==> res.Abort?
    ensures ov in h.vals && v in h.vals && h.vals[ov].kind == Concrete && h.vals[v].kind == Symbol ==>
              res == WriteVal(h, v, ov, 8, 15)
    ensures ov in h.vals && v in h.vals && !(h.vals[ov].kind == Concrete && h.vals[v].kind == Symbol) ==>
              res.Ok? && MergedHigh(h, res.value.0, res.value.1, ov, v)
  {
    if ov !in h.vals then Abort("NULL value dereferenced")
    else if h.vals[ov].kind == Concrete && v !in h.vals then Abort("NULL value dereferenced")
    else if h.vals[ov].kind == Concrete && h.vals[v].kind == Symbol then WriteVal(h, v, ov, 8, 15)
    else ShiftMerge(h, ov, v)
  }

  /** Store a freshly built owner value into slot `o`. */
  function Commit(e: Engine, o: string, built: Result<(Heap, Ref)>): (res: Result<Engine>)
    ensures res.Ok? <==> built.Ok?
    ensures res.Ok? ==> res.value == e.(heap := built.value.0, ctx := e.ctx[o := built.value.1])
  {
    var (h', r) :- built;
    Ok(e.(heap := h', ctx := e.ctx[o := r]))
  }

  /** `writeReg`: a 32-bit name overwrites its slot; a 16- or 8-bit name replaces
      its owner's slot by a value combining the owner's other bits with `v`; any
      other name changes nothing. */
  function WriteReg(e: Engine, s: string, v: Ref): (res: Result<Engine>)
    requires Bounded(e) && v <= e.heap.seed
    ensures Core.SubRegister(s).None? ==> res == Ok(e)
    ensures s in RegNames ==> res == Ok(e.(ctx := e.ctx[s := v]))
    ensures Core.SubRegister(s).Some? && s !in RegNames ==>
              var (o, lo, hi) := Core.SubRegister(s).value;
              var ov := CtxAt(e.ctx, o);
              IsPart(lo, hi) && o in RegNames &&
              res == (if lo == 0 then Commit(e, o, MergeLow(e.heap, ov, v, KeepMask(lo, hi)))
                      else Commit(e, o, WriteHigh(e.heap, ov, v)))
  {
    match Core.SubRegister(s)
    case None => Ok(e)
    case Some((o, lo, hi)) =>
      if hi == 31 then Ok(e.(ctx := e.ctx[o := v]))
      else if lo == 0 then Commit(e, o, MergeLow(e.heap, CtxAt(e.ctx, o), v, KeepMask(lo, hi)))
      else Commit(e, o, WriteHigh(e.heap, CtxAt(e.ctx, o), v))
  }

  /** A register write changes exactly one slot, the owner's, and leaves memory and
      the input records alone; `ctx` keeps exactly the eight 32-bit names. */
  lemma WriteRegOnlyOwner(e: Engine, s: string, v: Ref)
    requires Bounded(e) && v <= e.heap.seed && CtxValid(e)
    requires WriteReg(e, s, v).Ok? && Core.SubRegister(s).Some?
    ensures var e' := WriteReg(e, s, v).value;
            var o := Core.SubRegister(s).value.0;
            && o in RegNames && CtxValid(e')
            && e'.ctx == e.ctx[o := e'.ctx[o]]
            && e'.mem == e.mem && e'.meminput == e.meminput && e'.reginput == e.reginput
  {
    if s in RegNames {
      FullOwner(s);
    }
  }

  /** A 32-bit name is its own owner. */
  lemma FullOwner(s: string)
    requires s in RegNames
    ensures Core.SubRegister(s) == Some((s, 0, 31))
  {
    var i := RegIndex(s);
    assert Core.GeneralRegs[i] == s;
  }

  /** `getValue(s)` returns what the last 32-bit `writeReg(s, v)` stored, and every
      other register reads as before. */
  lemma GetValueAfterWrite(e: Engine, s: string, v: Ref, t: string)
    requires Bounded(e) && v <= e.heap.seed && s in RegNames
    ensures WriteReg(e, s, v).Ok?
    ensures GetValue(WriteReg(e, s, v).value, s).1 == v
    ensures t != s ==> GetValue(WriteReg(e, s, v).value, t).1 == GetValue(e, t).1
  {}

  // ---------------------------------------------------------------- the invariant

  /** `readReg` only extends the heap, keeps every child bounded, and returns a value
      that exists or NULL. */
  lemma ReadRegWf(e: Engine, s: string)
    requires Wf(e) && ReadReg(e, s).Ok?
    ensures var (h', v) := ReadReg(e, s).value;
            e.heap.seed <= h'.seed && v <= h'.seed && Wf(e.(heap := h'))
  {
    match Core.SubRegister(s)
    case None =>
    case Some((o, lo, hi)) =>
      if hi != 31 {
        var ov := CtxAt(e.ctx, o);
        if !HasVal(e.heap, ov, lo, hi).value {
          ExtractBounded(e.heap, ov, lo, ReadMask(lo, hi));
        }
      }
  }

  lemma ExtractBounded(h: Heap, ov: Ref, lo: nat, mask: nat)
    requires ChildBounded(h) && ov <= h.seed && Extract(h, ov, lo, mask).Ok?
    ensures var (h', v) := Extract(h, ov, lo, mask).value;
            h.seed <= h'.seed && v <= h'.seed && ChildBounded(h')
  {
    WithConstBounded(h, "and", ov, mask);
    if lo != 0 {
      var (h1, a) := WithConst(h, "and", ov, mask).value;
      WithConstBounded(h1, "shr", a, lo);
    }
  }

  /** `writeReg` keeps the invariant. */
  lemma WriteRegWf(e: Engine, s: string, v: Ref)
    requires Wf(e) && v <= e.heap.seed && WriteReg(e, s, v).Ok?
    ensures Wf(WriteReg(e, s, v).value)
    ensures e.heap.seed <= WriteReg(e, s, v).value.heap.seed
  {
    assert ChildBounded(e.heap);
    hide WriteReg, Core.SubRegister, Commit, MergeLow, WriteHigh, Wf;
    match Core.SubRegister(s)
    case None =>
    case Some((o, lo, hi)) =>
      var ov := CtxAt(e.ctx, o);
      assert ov <= e.heap.seed;
      if s in RegNames {
        SlotWf(e, s, e.heap, v);
      } else {
        var built := if lo == 0 then MergeLow(e.heap, ov, v, KeepMask(lo, hi)) else WriteHigh(e.heap, ov, v);
        if lo == 0 {
          MergeLowBounded(e.heap, ov, v, KeepMask(lo, hi));
        } else {
          WriteHighBounded(e.heap, ov, v);
        }
        SlotWf(e, o, built.value.0, built.value.1);
      }
  }

  /** Putting a value that exists into a slot, over a heap that only grew and keeps
      its children bounded, keeps the invariant. */
  lemma SlotWf(e: Engine, o: string, h': Heap, r: Ref)
    requires Wf(e) && e.heap.seed <= h'.seed && r <= h'.seed && ChildBounded(h')
    ensures Wf(e.(heap := h', ctx := e.ctx[o := r]))
  { }

  lemma MergeLowBounded(h: Heap, ov: Ref, v: Ref, keep: nat)
    requires ChildBounded(h) && ov <= h.seed && v <= h.seed && MergeLow(h, ov, v, keep).Ok?
    ensures var (h', r) := MergeLow(h, ov, v, keep).value;
            h.seed <= h'.seed && r <= h'.seed && ChildBounded(h')
  {
    var (h1, a) := WithConst(h, "and", ov, keep).value;
    WithConstBounded(h, "and", ov, keep);
    BuildOp2Bounded(h1, "or", a, v);
  }

  lemma WriteHighBounded(h: Heap, ov: Ref, v: Ref)
    requires ChildBounded(h) && ov <= h.seed && v <= h.seed && WriteHigh(h, ov, v).Ok?
    ensures var (h', r) := WriteHigh(h, ov, v).value;
            h.seed <= h'.seed && r <= h'.seed && ChildBounded(h')
  {
    if h.vals[ov].kind == Concrete && h.vals[v].kind == Symbol {
      WriteValBounded(h, v, ov, 8, 15);
    } else {
      var (h2, sv) := WithConst(h, "shl", v, 8).value;
      WithConstBounded(h, "shl", v, 8);
      MergeLowBounded(h2, ov, sv, 0xffff00ff);
    }
  }
}
