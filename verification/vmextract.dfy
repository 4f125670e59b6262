/** Trace preprocessing for VM detection (vmextract.cpp): opcode numbering, the jump
    set, peephole cancellation of adjacent inverse pairs, detection and pairing of
    the seven-register context save/restore sequences, and edge typing and counting
    over consecutive instructions. */
module VmExtract {
  import opened Wrappers
  import opened Word
  import opened Core

  // ---------------------------------------------------------------- opcode numbering

  /** The opcode mnemonics of a trace, in order. */
  function Mnemonics(L: seq<Inst>): set<string> {
    set k | 0 <= k < |L| :: L[k].opcstr
  }

  /** `buildOpcodeMap(L)`: each distinct mnemonic is numbered at its first
      appearance with the map's size plus one, so the numbers are exactly 1..n and
      no two mnemonics share one. */
  function OpcodeMap(L: seq<Inst>): (m: map<string, int>)
    ensures m.Keys == Mnemonics(L)
    ensures forall s | s in m :: 1 <= m[s] <= |m|
    ensures forall s, t | s in m && t in m && s != t :: m[s] != m[t]
    decreases |L|
  {
    if L == [] then map[]
    else
      var init := L[..|L| - 1];
      var m := OpcodeMap(init);
      var o := L[|L| - 1].opcstr;
      MnemonicsSnoc(L);
      if o in m then m
      else
        Number(m, o);
        m[o := |m| + 1]
  }

  /** Numbering a new mnemonic with the size plus one keeps the numbers 1..n and
      distinct. */
  lemma Number(m: map<string, int>, o: string)
    requires o !in m
    requires forall s | s in m :: 1 <= m[s] <= |m|
    requires forall s, t | s in m && t in m && s != t :: m[s] != m[t]
    ensures var m' := m[o := |m| + 1];
            && m'.Keys == m.Keys + {o} && |m'| == |m| + 1
            && (forall s | s in m' :: 1 <= m'[s] <= |m'|)
            && (forall s, t | s in m' && t in m' && s != t :: m'[s] != m'[t])
  {
    var m' := m[o := |m| + 1];
    assert m'.Keys == m.Keys + {o};
  }

  lemma MnemonicsSnoc(L: seq<Inst>)
    requires L != []
    ensures Mnemonics(L) == Mnemonics(L[..|L| - 1]) + {L[|L| - 1].opcstr}
  {
    var init := L[..|L| - 1];
    forall k | 0 <= k < |init| ensures init[k] == L[k] {}
  }

  /** A mnemonic first seen at position `k` is numbered with the number of distinct
      mnemonics before it, plus one. */
  lemma {:induction false} FirstAppearance(L: seq<Inst>, k: nat)
    requires k < |L| && L[k].opcstr !in Mnemonics(L[..k])
    ensures OpcodeMap(L)[L[k].opcstr] == |OpcodeMap(L[..k])| + 1
    decreases |L|
  {
    var init := L[..|L| - 1];
    if k < |L| - 1 {
      assert init[..k] == L[..k];
      FirstAppearance(init, k);
      assert L[k].opcstr in Mnemonics(init) by { assert init[k] == L[k]; }
    } else {
      assert init == L[..k];
    }
  }

  /** Every number from 1 to the map's size is in use. */
  lemma {:induction false} OpcodeMapDense(L: seq<Inst>, v: int)
    requires 1 <= v <= |OpcodeMap(L)|
    ensures exists s | s in OpcodeMap(L) :: OpcodeMap(L)[s] == v
    decreases |L|
  {
    var init := L[..|L| - 1];
    var m := OpcodeMap(init);
    var o := L[|L| - 1].opcstr;
    if v <= |m| {
      OpcodeMapDense(init, v);
      var s :| s in m && m[s] == v;
      assert s != o || o in m;
      assert OpcodeMap(L)[s] == v;
    } else {
      assert o !in m;
      assert OpcodeMap(L)[o] == v;
    }
  }

  /** `getOpc(s, m)`: the mnemonic's number, 0 when it has none. */
  function GetOpc(s: string, m: map<string, int>): int {
    if s in m then m[s] else 0
  }

  /** A mnemonic has number 0 exactly when the trace does not use it. */
  lemma GetOpcUnknown(L: seq<Inst>, s: string)
    ensures GetOpc(s, OpcodeMap(L)) == 0 <==> forall k | 0 <= k < |L| :: L[k].opcstr != s
  {
    if GetOpc(s, OpcodeMap(L)) != 0 {
      assert s in Mnemonics(L);
    }
  }

  /** `isjump(i, jumpset)`. */
  predicate IsJump(i: int, jumps: set<int>) {
    i in jumps
  }

  /** `jmpInstrName`: the 33 jump mnemonics. */
  const JmpInstrName: seq<string> := [
    "jo", "jno", "js", "jns", "je", "jz", "jne",
    "jnz", "jb", "jnae", "jc", "jnb", "jae",
    "jnc", "jbe", "jna", "ja", "jnbe", "jl",
    "jnge", "jge", "jnl", "jle", "jng", "jg",
    "jnle", "jp", "jpe", "jnp", "jpo", "jcxz",
    "jecxz", "jmp"]

  /** The loop over `jmpInstrName` from position `k`: the nonzero numbers. */
  function JumpIds(names: seq<string>, m: map<string, int>): (js: set<int>)
    requires forall s | s in m :: m[s] >= 1
    ensures js == set s | s in names && s in m :: m[s]
  {
    if names == [] then {}
    else
      var n := GetOpc(names[0], m);
      var rest := JumpIds(names[1..], m);
      assert forall s :: s in names <==> s == names[0] || s in names[1..];
      if n != 0 then {n} + rest else rest
  }

  /** The trace after `preprocess`, with the opcode map and the jump set it built. */
  datatype Prepared = Prepared(insts: seq<Inst>, opcodes: map<string, int>, jumps: set<int>)

  /** The loop of `preprocess` that sets every instruction's `opc` from the map. */
  function Renumber(L: seq<Inst>, m: map<string, int>): (r: seq<Inst>)
    requires forall k | 0 <= k < |L| :: L[k].opcstr in m
    ensures |r| == |L|
    ensures forall k | 0 <= k < |L| :: r[k] == L[k].(opc := m[L[k].opcstr])
  {
    seq(|L|, k requires 0 <= k < |L| => L[k].(opc := GetOpc(L[k].opcstr, m)))
  }

  /** `preprocess(L)`: number the opcodes, set every instruction's `opc`, and
      collect the numbers of the jump mnemonics that occur. */
  function Preprocess(L: seq<Inst>): (p: Prepared)
    ensures p.opcodes == OpcodeMap(L) && |p.insts| == |L|
    ensures forall k | 0 <= k < |L| :: p.insts[k] == L[k].(opc := p.opcodes[L[k].opcstr])
    ensures forall k | 0 <= k < |L| :: 1 <= p.insts[k].opc
    ensures p.jumps == set s | s in JmpInstrName && s in p.opcodes :: p.opcodes[s]
  {
    var m := OpcodeMap(L);
    EveryMnemonicNumbered(L);
    Prepared(Renumber(L, m), m, JumpIds(JmpInstrName, m))
  }

  lemma EveryMnemonicNumbered(L: seq<Inst>)
    ensures forall k | 0 <= k < |L| :: L[k].opcstr in OpcodeMap(L)
  {
    forall k | 0 <= k < |L| ensures L[k].opcstr in Mnemonics(L) {}
  }

  /** After preprocessing, an instruction is a jump exactly when its mnemonic is one
      of the 33 jump mnemonics. */
  lemma IsJumpIffJumpMnemonic(L: seq<Inst>, k: nat)
    requires k < |L|
    ensures IsJump(Preprocess(L).insts[k].opc, Preprocess(L).jumps) <==> L[k].opcstr in JmpInstrName
  {
    var p := Preprocess(L);
    var o := L[k].opcstr;
    if IsJump(p.insts[k].opc, p.jumps) {
      var s :| s in JmpInstrName && s in p.opcodes && p.opcodes[s] == p.opcodes[o];
      assert s == o;
    }
  }

  // ---------------------------------------------------------------- peephole

  /** `oprs[k]`; reading an operand text that is not there is out of range. */
  function Opr(i: Inst, k: nat): Result<string> {
    if k < |i.oprs| then Ok(i.oprs[k]) else Abort("operand index out of range")
  }

  /** The mnemonics whose test reads the next instruction. */
  predicate LooksAhead(opc: string) {
    opc in {"pushad", "popad", "push", "pop", "add", "sub", "inc", "dec"}
  }

  /** Do two adjacent instructions undo each other: `pushad`/`popad`, `push x`/`pop x`,
      `add a, b`/`sub a, b` or `inc x`/`dec x`, in either order? */
  predicate Inverse(a: string, b: string) {
    || (a == "pushad" && b == "popad") || (a == "popad" && b == "pushad")
    || (a == "push" && b == "pop") || (a == "pop" && b == "push")
    || (a == "add" && b == "sub") || (a == "sub" && b == "add")
    || (a == "inc" && b == "dec") || (a == "dec" && b == "inc")
  }

  /** The number of operand texts that must agree for an inverse pair. */
  function Agree(opc: string): nat {
    if opc == "pushad" || opc == "popad" then 0
    else if opc == "add" || opc == "sub" then 2
    else 1
  }

  /** The peephole test on `it` and `next(it,1)`, with the operand texts it compares. */
  function Cancels(a: Inst, b: Inst): (r: Result<bool>)
    ensures r == Ok(true) ==> Inverse(a.opcstr, b.opcstr)
    ensures !Inverse(a.opcstr, b.opcstr) ==> r == Ok(false)
  {
    if !Inverse(a.opcstr, b.opcstr) then Ok(false)
    else if Agree(a.opcstr) == 0 then Ok(true)
    else
      var x0 :- Opr(a, 0);
      var y0 :- Opr(b, 0);
      if x0 != y0 then Ok(false)
      else if Agree(a.opcstr) == 1 then Ok(true)
      else
        var x1 :- Opr(a, 1);
        var y1 :- Opr(b, 1);
        Ok(x1 == y1)
  }

  /** `peephole` over the list from `it` on. A cancelling pair is erased; the loop's
      `continue` then still advances past the element that followed the pair, which
      is kept without being tested. Testing the last element reads past the end
      when its mnemonic looks ahead, and erasing the last two elements advances
      past the end. */
  function Peephole(xs: seq<Inst>): (r: Result<seq<Inst>>)
    ensures r.Ok? ==> |r.value| <= |xs| && (|xs| - |r.value|) % 2 == 0
    decreases |xs|
  {
    if xs == [] then Ok([])
    else if |xs| == 1 then
      if LooksAhead(xs[0].opcstr) then Abort("next of the last element dereferenced") else Ok(xs)
    else
      var c :- Cancels(xs[0], xs[1]);
      if c then
        if |xs| == 2 then Abort("iterator advanced past the end")
        else
          var rest :- Peephole(xs[3..]);
          Ok([xs[2]] + rest)
      else
        var rest :- Peephole(xs[1..]);
        Ok([xs[0]] + rest)
  }

  /** The peephole output is the input with elements erased, in the same order. */
  lemma {:induction false} PeepholeSubsequence(xs: seq<Inst>)
    requires Peephole(xs).Ok?
    ensures Subsequence(Peephole(xs).value, xs)
    decreases |xs|
  {
    if |xs| == 1 {
      SubsequenceSelf(xs);
    } else if |xs| >= 2 {
      var r := Peephole(xs).value;
      if Cancels(xs[0], xs[1]).value {
        PeepholeSubsequence(xs[3..]);
        assert r[1..] == Peephole(xs[3..]).value;
        assert Subsequence(r, xs[2..]);
        assert xs[2..][1..] == xs[3..];
        assert Subsequence(r, xs[1..]) by { assert xs[1..][1..] == xs[2..]; }
      } else {
        PeepholeSubsequence(xs[1..]);
        assert r[1..] == Peephole(xs[1..]).value;
      }
    }
  }

  /** No two adjacent elements cancel, and the last one does not look ahead. */
  predicate Settled(xs: seq<Inst>) {
    && (forall k | 0 <= k < |xs| - 1 :: Cancels(xs[k], xs[k + 1]) == Ok(false))
    && (xs != [] ==> !LooksAhead(xs[|xs| - 1].opcstr))
  }

  /** A trace with nothing to cancel passes through unchanged. */
  lemma {:induction false} PeepholeSettled(xs: seq<Inst>)
    requires Settled(xs)
    ensures Peephole(xs) == Ok(xs)
    decreases |xs|
  {
    if |xs| >= 2 {
      assert Settled(xs[1..]) by {
        forall k | 0 <= k < |xs[1..]| - 1 ensures Cancels(xs[1..][k], xs[1..][k + 1]) == Ok(false) {
          assert xs[1..][k] == xs[k + 1] && xs[1..][k + 1] == xs[k + 2];
        }
      }
      PeepholeSettled(xs[1..]);
      assert Cancels(xs[0], xs[1]) == Ok(false);
      assert [xs[0]] + xs[1..] == xs;
    }
  }

  /** An instruction with the given mnemonic and operand texts; other fields blank. */
  function Asm(opc: string, oprs: seq<string>): Inst {
    Inst(0, "", 0, "", 0, opc, oprs, |oprs|, [], [], 0, 0, [], [], [], [])
  }

  /** The element after an erased pair is never tested: in
      `push eax; pop eax; pop ebx; push ebx; nop` the second pair survives. */
  lemma PeepholeSkipsAfterPair()
    ensures var xs := [Asm("push", ["eax"]), Asm("pop", ["eax"]), Asm("pop", ["ebx"]),
                       Asm("push", ["ebx"]), Asm("nop", [])];
            && Cancels(xs[2], xs[3]) == Ok(true)
            && Peephole(xs) == Ok(xs[2..])
  {
    var a, b, c, d, e := Asm("push", ["eax"]), Asm("pop", ["eax"]), Asm("pop", ["ebx"]),
                         Asm("push", ["ebx"]), Asm("nop", []);
    assert Peephole([e]) == Ok([e]) by { assert !LooksAhead("nop"); }
    assert Peephole([d, e]) == Ok([d, e]) by {
      assert Cancels(d, e) == Ok(false);
      assert [d, e][1..] == [e];
      assert [d] + [e] == [d, e];
    }
    assert Peephole([a, b, c, d, e]) == Ok([c, d, e]) by {
      assert Cancels(a, b) == Ok(true);
      assert [a, b, c, d, e][3..] == [d, e];
      assert [a, b, c, d, e][2] == c;
      assert [c] + [d, e] == [c, d, e];
    }
    assert [a, b, c, d, e][2..] == [c, d, e];
  }

  // ---------------------------------------------------------------- context save / restore

  /** `isreg`: the general registers other than `esp`. */
  predicate IsReg(s: string) {
    s in {"eax", "ebx", "ecx", "edx", "esi", "edi", "ebp"}
  }

  /** The registers `isreg` accepts are the 32-bit general registers except the
      stack pointer. */
  lemma IsRegGeneral(s: string)
    ensures IsReg(s) <==> s in GeneralRegs && s != "esp"
  {
  }

  /** The length of a context save or restore sequence. */
  const WINDOW := 7

  /** The first loop of `chkpush`/`chkpop` over `L[j..i+7)`: every instruction has the
      given opcode number and a register operand. It stops at the first that does
      not; reaching the end of the trace first dereferences the end. */
  function AllRegOps(L: seq<Inst>, j: nat, stop: nat, opc: int): (r: Result<bool>)
    requires j <= stop && j <= |L|
    decreases stop - j
  {
    if j == stop then Ok(true)
    else if j >= |L| then Abort("window runs past the end of the trace")
    else if L[j].opc != opc then Ok(false)
    else
      var o :- Opr(L[j], 0);
      if !IsReg(o) then Ok(false) else AllRegOps(L, j + 1, stop, opc)
  }

  /** A window of instructions that all have the opcode and a register operand. */
  predicate RegWindow(L: seq<Inst>, i: nat, opc: int) {
    i + WINDOW <= |L| &&
    forall j | i <= j < i + WINDOW :: L[j].opc == opc && |L[j].oprs| > 0 && IsReg(L[j].oprs[0])
  }

  lemma {:induction false} AllRegOpsSpec(L: seq<Inst>, j: nat, stop: nat, opc: int)
    requires j <= stop && j <= |L|
    ensures AllRegOps(L, j, stop, opc) == Ok(true) <==>
            stop <= |L| && forall k | j <= k < stop :: L[k].opc == opc && |L[k].oprs| > 0 && IsReg(L[k].oprs[0])
    decreases stop - j
  {
    if j < stop && j < |L| && L[j].opc == opc && |L[j].oprs| > 0 && IsReg(L[j].oprs[0]) {
      AllRegOpsSpec(L, j + 1, stop, opc);
    }
  }

  /** The second loop: the operand texts of `L[j..stop)` are new to `seen` and to
      each other. */
  function Distinct(L: seq<Inst>, j: nat, stop: nat, seen: set<string>): (r: bool)
    requires j <= stop <= |L| && forall k | j <= k < stop :: |L[k].oprs| > 0
    decreases stop - j
  {
    if j == stop then true
    else if L[j].oprs[0] in seen then false
    else Distinct(L, j + 1, stop, seen + {L[j].oprs[0]})
  }

  lemma {:induction false} DistinctSpec(L: seq<Inst>, j: nat, stop: nat, seen: set<string>)
    requires j <= stop <= |L| && forall k | j <= k < stop :: |L[k].oprs| > 0
    ensures Distinct(L, j, stop, seen) <==>
            (forall k | j <= k < stop :: L[k].oprs[0] !in seen) &&
            (forall a, b | j <= a < b < stop :: L[a].oprs[0] != L[b].oprs[0])
    decreases stop - j
  {
    if j < stop {
      DistinctSpec(L, j + 1, stop, seen + {L[j].oprs[0]});
    }
  }

  /** `chkpush(it, next(it,7))` (with `opc` the number of `push`) and `chkpop` (with
      that of `pop`): true exactly when the seven instructions from `i` have that
      opcode and pairwise distinct register operands other than `esp`. */
  function Check(L: seq<Inst>, i: nat, opc: int): (r: Result<bool>)
    requires i <= |L|
    ensures r == Ok(true) <==>
            RegWindow(L, i, opc) &&
            forall a, b | i <= a < b < i + WINDOW :: L[a].oprs[0] != L[b].oprs[0]
  {
    AllRegOpsSpec(L, i, i + WINDOW, opc);
    var regs :- AllRegOps(L, i, i + WINDOW, opc);
    if !regs then Ok(false)
    else
      DistinctSpec(L, i, i + WINDOW, {});
      Ok(Distinct(L, i, i + WINDOW, {}))
  }

  /** A context switch: the window `[begin, end)` and the stack depth `sd`. */
  datatype CtxSwitch = CtxSwitch(begin: nat, end: nat, sd: u32)

  /** The scan of `vmextract` from position `i`: a save where the window from `i`
      passes `chkpush`, recorded with the `esp` of the instruction after it; else a
      restore where it passes `chkpop`, recorded with the `esp` of its first
      instruction. */
  function Scan(L: seq<Inst>, i: nat, push: int, pop: int): (r: Result<(seq<CtxSwitch>, seq<CtxSwitch>)>)
    requires forall k | 0 <= k < |L| :: |L[k].ctxreg| == 8
    requires i <= |L|
    ensures r.Ok? ==> forall c | c in r.value.0 ::
              i <= c.begin && c.end == c.begin + WINDOW < |L| && Check(L, c.begin, push) == Ok(true) &&
              c.sd == L[c.end].ctxreg[6]
    ensures r.Ok? ==> forall c | c in r.value.1 ::
              i <= c.begin && c.end == c.begin + WINDOW <= |L| && Check(L, c.begin, pop) == Ok(true) &&
              Check(L, c.begin, push) == Ok(false) && c.sd == L[c.begin].ctxreg[6]
    decreases |L| - i
  {
    if i == |L| then Ok(([], []))
    else
      var isPush :- Check(L, i, push);
      if isPush then
        if i + WINDOW >= |L| then Abort("end of the trace dereferenced")
        else
          var rest :- Scan(L, i + 1, push, pop);
          Ok(([CtxSwitch(i, i + WINDOW, L[i + WINDOW].ctxreg[6])] + rest.0, rest.1))
      else
        var isPop :- Check(L, i, pop);
        var rest :- Scan(L, i + 1, push, pop);
        if isPop then Ok((rest.0, [CtxSwitch(i, i + WINDOW, L[i].ctxreg[6])] + rest.1))
        else Ok(rest)
  }

  /** The scan misses nothing: every window that passes `chkpush` is a save, and
      every other window that passes `chkpop` is a restore. */
  lemma {:induction false} ScanComplete(L: seq<Inst>, i: nat, push: int, pop: int, j: nat)
    requires forall k | 0 <= k < |L| :: |L[k].ctxreg| == 8
    requires i <= j < |L| && Scan(L, i, push, pop).Ok?
    ensures Check(L, j, push) == Ok(true) ==> exists c | c in Scan(L, i, push, pop).value.0 :: c.begin == j
    ensures Check(L, j, push) == Ok(false) && Check(L, j, pop) == Ok(true) ==>
              exists c | c in Scan(L, i, push, pop).value.1 :: c.begin == j
    decreases |L| - i
  {
    hide Check;
    var r := Scan(L, i, push, pop).value;
    if j == i {
      if Check(L, i, push) == Ok(true) {
        assert r.0[0].begin == i;
      } else if Check(L, j, push) == Ok(false) && Check(L, j, pop) == Ok(true) {
        assert r.1[0].begin == i;
      }
    } else {
      ScanComplete(L, i + 1, push, pop, j);
      var rest := Scan(L, i + 1, push, pop).value;
      assert forall c | c in rest.0 :: c in r.0;
      assert forall c | c in rest.1 :: c in r.1;
    }
  }

  /** Every save paired with every restore of the same stack depth, saves in order
      and, for each, restores in order. */
  function Pair(saves: seq<CtxSwitch>, restores: seq<CtxSwitch>): (ps: seq<(CtxSwitch, CtxSwitch)>)
    ensures forall s, t :: (s, t) in ps <==> s in saves && t in restores && s.sd == t.sd
  {
    if saves == [] then []
    else
      var mine := Matching(saves[0], restores);
      var rest := Pair(saves[1..], restores);
      assert forall s :: s in saves <==> s == saves[0] || s in saves[1..];
      mine + rest
  }

  function Matching(s: CtxSwitch, restores: seq<CtxSwitch>): (ps: seq<(CtxSwitch, CtxSwitch)>)
    ensures forall a, b :: (a, b) in ps <==> a == s && b in restores && s.sd == b.sd
  {
    if restores == [] then []
    else
      var rest := Matching(s, restores[1..]);
      assert forall t :: t in restores <==> t == restores[0] || t in restores[1..];
      if restores[0].sd == s.sd then [(s, restores[0])] + rest else rest
  }

  /** What `vmextract` finds: the saves, the restores, and their pairing. */
  datatype Extracted = Extracted(saves: seq<CtxSwitch>, restores: seq<CtxSwitch>,
                                 pairs: seq<(CtxSwitch, CtxSwitch)>)

  /** `vmextract(L)` on a preprocessed trace. */
  function VmExtract(p: Prepared): (r: Result<Extracted>)
    requires forall k | 0 <= k < |p.insts| :: |p.insts[k].ctxreg| == 8
    ensures r.Ok? ==> forall s, t :: (s, t) in r.value.pairs <==>
              s in r.value.saves && t in r.value.restores && s.sd == t.sd
  {
    var found :- Scan(p.insts, 0, GetOpc("push", p.opcodes), GetOpc("pop", p.opcodes));
    Ok(Extracted(found.0, found.1, Pair(found.0, found.1)))
  }

  // ---------------------------------------------------------------- edges

  /** `ishex(s)`: does the text start with `0x`? */
  predicate IsHex(s: string) {
    |s| >= 2 && s[0] == '0' && s[1] == 'x'
  }

  /** An edge between two instruction addresses, with its kind and how often the
      trace took it. */
  datatype Edge = Edge(fromaddr: u32, toaddr: u32, ty: int, count: int)

  /** The edge type of a control transfer: 2/1 for a direct/indirect jump, 3 for a
      return, 4/5 for a direct/indirect call; other instructions have none. */
  function EdgeType(i: Inst, jumps: set<int>): (r: Result<Option<int>>)
    ensures r.Abort? <==> |i.oprs| == 0 && (IsJump(i.opc, jumps) || i.opcstr == "call")
    ensures r == Ok(Some(2)) <==> IsJump(i.opc, jumps) && |i.oprs| > 0 && IsHex(i.oprs[0])
    ensures r == Ok(Some(1)) <==> IsJump(i.opc, jumps) && |i.oprs| > 0 && !IsHex(i.oprs[0])
    ensures r == Ok(Some(3)) <==> !IsJump(i.opc, jumps) && i.opcstr == "ret"
    ensures r == Ok(Some(4)) <==> !IsJump(i.opc, jumps) && i.opcstr == "call" && |i.oprs| > 0 && IsHex(i.oprs[0])
    ensures r == Ok(Some(5)) <==> !IsJump(i.opc, jumps) && i.opcstr == "call" && |i.oprs| > 0 && !IsHex(i.oprs[0])
    ensures r == Ok(None) <==> !IsJump(i.opc, jumps) && i.opcstr != "ret" && i.opcstr != "call"
  {
    if IsJump(i.opc, jumps) then
      var t :- Opr(i, 0);
      Ok(Some(if IsHex(t) then 2 else 1))
    else if i.opcstr == "ret" then Ok(Some(3))
    else if i.opcstr == "call" then
      var t :- Opr(i, 0);
      Ok(Some(if IsHex(t) then 4 else 5))
    else Ok(None)
  }

  /** No two edges join the same pair of addresses. */
  predicate NoDuplicates(es: seq<Edge>) {
    forall a, b | 0 <= a < b < |es| :: (es[a].fromaddr, es[a].toaddr) != (es[b].fromaddr, es[b].toaddr)
  }

  /** The sum of the edges' counts. */
  function Total(es: seq<Edge>): int {
    if es == [] then 0 else es[0].count + Total(es[1..])
  }

  /** The search loop of the edge recording: the index of the first edge from `i` on
      with the given endpoints, or `|es|` (`i == max`) when there is none. */
  function FindEdge(es: seq<Edge>, from: u32, to: u32, i: nat): (k: nat)
    requires i <= |es|
    ensures i <= k <= |es|
    ensures k < |es| ==> es[k].fromaddr == from && es[k].toaddr == to
    ensures forall j | i <= j < k :: es[j].fromaddr != from || es[j].toaddr != to
    decreases |es| - i
  {
    if i == |es| then i
    else if es[i].fromaddr == from && es[i].toaddr == to then i
    else FindEdge(es, from, to, i + 1)
  }

  /** Record one control transfer: bump the first edge with the same endpoints, or
      append a new edge of count 1. */
  function Record(es: seq<Edge>, from: u32, to: u32, ty: int): (r: seq<Edge>)
    ensures Total(r) == Total(es) + 1
    ensures exists k | 0 <= k < |r| :: r[k].fromaddr == from && r[k].toaddr == to
    ensures |r| == |es| || (|r| == |es| + 1 && r[|es|] == Edge(from, to, ty, 1))
    ensures |r| == |es| ==> exists k | 0 <= k < |es| :: es[k].fromaddr == from && es[k].toaddr == to
    ensures forall k | 0 <= k < |es| :: r[k].fromaddr == es[k].fromaddr && r[k].toaddr == es[k].toaddr &&
              r[k].ty == es[k].ty
  {
    var k := FindEdge(es, from, to, 0);
    if k < |es| then
      var e := es[k].(count := es[k].count + 1);
      TotalUpdate(es, k, e);
      var r := es[k := e];
      assert r[k].fromaddr == from && r[k].toaddr == to;
      r
    else
      TotalAppend(es, Edge(from, to, ty, 1));
      var r := es + [Edge(from, to, ty, 1)];
      assert r[|es|].fromaddr == from && r[|es|].toaddr == to;
      assert forall j | 0 <= j < |es| :: r[j] == es[j];
      r
  }

  /** When an edge with the endpoints exists, recording bumps the count of the first
      such edge and changes nothing else. */
  lemma RecordBumpsFirst(es: seq<Edge>, from: u32, to: u32, ty: int, k: nat)
    requires k < |es| && es[k].fromaddr == from && es[k].toaddr == to
    requires forall j | 0 <= j < k :: es[j].fromaddr != from || es[j].toaddr != to
    ensures Record(es, from, to, ty) == es[k := es[k].(count := es[k].count + 1)]
  {
    var f := FindEdge(es, from, to, 0);
    assert f == k;
  }

  /** When no edge has the endpoints, recording appends one of count 1 with the
      transfer's type. */
  lemma RecordAppends(es: seq<Edge>, from: u32, to: u32, ty: int)
    requires forall j | 0 <= j < |es| :: es[j].fromaddr != from || es[j].toaddr != to
    ensures Record(es, from, to, ty) == es + [Edge(from, to, ty, 1)]
  {
    var f := FindEdge(es, from, to, 0);
    assert f == |es|;
  }

  /** Recording never duplicates a pair of endpoints. */
  lemma RecordKeepsDistinct(es: seq<Edge>, from: u32, to: u32, ty: int)
    requires NoDuplicates(es)
    ensures NoDuplicates(Record(es, from, to, ty))
  {
    var r := Record(es, from, to, ty);
    if FindEdge(es, from, to, 0) == |es| {
      forall a, b | 0 <= a < b < |r| ensures (r[a].fromaddr, r[a].toaddr) != (r[b].fromaddr, r[b].toaddr) {
        if b == |es| {
          assert r[a] == es[a];
        } else {
          assert r[a] == es[a] && r[b] == es[b];
        }
      }
    }
  }

  /** Changing one edge changes the sum by the difference of its counts. */
  lemma {:induction false} TotalUpdate(es: seq<Edge>, k: nat, e: Edge)
    requires k < |es|
    ensures Total(es[k := e]) == Total(es) - es[k].count + e.count
    decreases k
  {
    if k > 0 {
      TotalUpdate(es[1..], k - 1, e);
      assert es[k := e][1..] == es[1..][k - 1 := e];
    }
  }

  /** Appending an edge adds its count to the sum. */
  lemma {:induction false} TotalAppend(es: seq<Edge>, e: Edge)
    ensures Total(es + [e]) == Total(es) + e.count
    decreases |es|
  {
    if es == [] {
      assert [] + [e] == [e];
    } else {
      TotalAppend(es[1..], e);
      assert (es + [e])[1..] == es[1..] + [e];
    }
  }

  /** The edge loop of the CFG construction over consecutive instructions
      `(L[k], L[k+1])` from `k`: each control transfer is recorded from its address to
      the next instruction's. The last instruction has no successor and is ignored.
      `es` holds the edges the basic-block splitting already recorded. */
  function Edges(L: seq<Inst>, k: nat, jumps: set<int>, es: seq<Edge>): (r: Result<seq<Edge>>)
    requires k < |L|
    ensures r.Ok? ==> Total(r.value) == Total(es) + Transfers(L, k, jumps)
    decreases |L| - k
  {
    if k + 1 == |L| then Ok(es)
    else
      var t :- EdgeType(L[k], jumps);
      var es1 := if t.Some? then Record(es, L[k].addrn, L[k + 1].addrn, t.value) else es;
      Edges(L, k + 1, jumps, es1)
  }

  /** The number of control transfers among `L[k..|L|-1)`. */
  function Transfers(L: seq<Inst>, k: nat, jumps: set<int>): nat
    requires k < |L|
    decreases |L| - k
  {
    if k + 1 == |L| then 0
    else
      (if Transfer(L[k], jumps) then 1 else 0) + Transfers(L, k + 1, jumps)
  }

  /** Does the instruction transfer control, with an edge type? */
  predicate Transfer(i: Inst, jumps: set<int>) {
    var t := EdgeType(i, jumps);
    t.Ok? && t.value.Some?
  }

  /** The edge loop keeps the edges free of duplicate endpoints. */
  lemma {:induction false} EdgesKeepDistinct(L: seq<Inst>, k: nat, jumps: set<int>, es: seq<Edge>)
    requires k < |L| && NoDuplicates(es) && Edges(L, k, jumps, es).Ok?
    ensures NoDuplicates(Edges(L, k, jumps, es).value)
    decreases |L| - k
  {
    if k + 1 < |L| {
      var t := EdgeType(L[k], jumps).value;
      if t.Some? {
        RecordKeepsDistinct(es, L[k].addrn, L[k + 1].addrn, t.value);
        EdgesKeepDistinct(L, k + 1, jumps, Record(es, L[k].addrn, L[k + 1].addrn, t.value));
      } else {
        EdgesKeepDistinct(L, k + 1, jumps, es);
      }
    }
  }

  /** An edge with the given endpoints is among the edges. */
  predicate HasEdge(es: seq<Edge>, from: u32, to: u32) {
    exists k | 0 <= k < |es| :: es[k].fromaddr == from && es[k].toaddr == to
  }

  /** One turn of the edge loop. */
  lemma EdgesStep(L: seq<Inst>, k: nat, jumps: set<int>, es: seq<Edge>)
    requires k + 1 < |L| && Edges(L, k, jumps, es).Ok?
    ensures EdgeType(L[k], jumps).Ok?
    ensures var t := EdgeType(L[k], jumps).value;
            Edges(L, k, jumps, es) ==
            Edges(L, k + 1, jumps, if t.Some? then Record(es, L[k].addrn, L[k + 1].addrn, t.value) else es)
  {
  }

  /** Every control transfer of the trace, and every edge there was before, has an
      edge with its endpoints afterwards, and an edge keeps the type it was first
      recorded with. */
  lemma {:induction false} EdgesCover(L: seq<Inst>, k: nat, jumps: set<int>, es: seq<Edge>)
    requires k < |L| && Edges(L, k, jumps, es).Ok?
    ensures var r := Edges(L, k, jumps, es).value;
            && |es| <= |r|
            && (forall j | 0 <= j < |es| :: r[j].fromaddr == es[j].fromaddr && r[j].toaddr == es[j].toaddr && r[j].ty == es[j].ty)
            && (forall j | k <= j < |L| - 1 && Transfer(L[j], jumps) :: HasEdge(r, L[j].addrn, L[j + 1].addrn))
    decreases |L| - k
  {
    if k + 1 < |L| {
      EdgesStep(L, k, jumps, es);
      hide Edges, EdgeType, Record, Total, Transfers;
      var t := EdgeType(L[k], jumps).value;
      var es1 := if t.Some? then Record(es, L[k].addrn, L[k + 1].addrn, t.value) else es;
      EdgesCover(L, k + 1, jumps, es1);
      var r := Edges(L, k, jumps, es).value;
      assert r == Edges(L, k + 1, jumps, es1).value;
      if t.Some? {
        var i :| 0 <= i < |es1| && es1[i].fromaddr == L[k].addrn && es1[i].toaddr == L[k + 1].addrn;
        assert r[i].fromaddr == L[k].addrn && r[i].toaddr == L[k + 1].addrn;
      }
    }
  }
}
