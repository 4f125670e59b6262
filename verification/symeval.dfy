/** The concrete side of the engine (mg-symengine.cpp:217-303, 1258-1406): the
    free-symbol collector `getInputs`, the evaluator `eval` over `uint32_t`,
    `conexec`, `buildinmap`, and the address arithmetic of `calcAddr`. */
module SymEval {
  import opened Wrappers
  import opened Word
  import opened SymValue
  import Hex
  import Core
  import SymEngine

  /** `map<Value*, ADDR32>`: the value bound to each input symbol. */
  type Binding = map<Ref, u32>

  /** `(*inmap)[v]`: a missing key reads as 0 (`operator[]` inserts a zero). */
  function Lookup(m: Binding, r: Ref): u32 {
    if r in m then m[r] else 0
  }

  /** A formula heap: every operand was built before the node over it, and is NULL
      or stored. The evaluator asks this of the heap it is given; `EvalBuildOp2`
      shows that `buildop2` keeps it. */
  ghost predicate Formula(h: Heap) {
    Acyclic(h) && Closed(h)
  }

  /** The operands of a stored node come before it. */
  ghost predicate Below(h: Heap, args: seq<Ref>, r: Ref) {
    forall j | 0 <= j < |args| :: args[j] < r && (args[j] == NULL || args[j] in h.vals)
  }

  lemma OperandsBelow(h: Heap, r: Ref)
    requires Formula(h) && r in h.vals && h.vals[r].opr.Some?
    ensures Below(h, h.vals[r].opr.value.args, r)
  {
  }

  // ---------------------------------------------------------------- getInputs

  /** An operation-less SYMBOL: what `getInputs` collects. */
  predicate IsInput(h: Heap, x: Ref) {
    x in h.vals && h.vals[x].opr.None? && h.vals[x].kind == Symbol
  }

  /** `getInputs(v)`: the operation-less SYMBOL values reachable from `v` through
      operation operands. The children of a HYBRID are not operands and are not
      followed. */
  function Inputs(h: Heap, r: Ref): (s: set<Ref>)
    requires Formula(h) && r in h.vals
    ensures forall x | x in s :: IsInput(h, x) && x <= r
    decreases r, 1
  {
    var v := h.vals[r];
    if v.opr.None? then (if v.kind == Symbol then {r} else {})
    else
      OperandsBelow(h, r);
      ArgInputs(h, v.opr.value.args, 0, r)
  }

  function ArgInputs(h: Heap, args: seq<Ref>, i: nat, r: Ref): (s: set<Ref>)
    requires Formula(h) && Below(h, args, r)
    ensures forall x | x in s :: IsInput(h, x) && x < r
    decreases r, 0, |args| - i
  {
    if i >= |args| then {}
    else
      var here := if args[i] == NULL then {} else Inputs(h, args[i]);
      here + ArgInputs(h, args, i + 1, r)
  }

  /** The leaves whose value `eval` takes from the binding: operation-less values
      that are not CONCRETE, i.e. SYMBOLs and HYBRIDs. */
  function Leaves(h: Heap, r: Ref): (s: set<Ref>)
    requires Formula(h) && r in h.vals
    ensures forall x | x in s :: x in h.vals && h.vals[x].opr.None? && h.vals[x].kind != Concrete && x <= r
    decreases r, 1
  {
    var v := h.vals[r];
    if v.opr.None? then (if v.kind != Concrete then {r} else {})
    else
      OperandsBelow(h, r);
      ArgLeaves(h, v.opr.value.args, 0, r)
  }

  function ArgLeaves(h: Heap, args: seq<Ref>, i: nat, r: Ref): (s: set<Ref>)
    requires Formula(h) && Below(h, args, r)
    ensures forall x | x in s :: x in h.vals && h.vals[x].opr.None? && h.vals[x].kind != Concrete && x < r
    decreases r, 0, |args| - i
  {
    if i >= |args| then {}
    else
      var here := if args[i] == NULL then {} else Leaves(h, args[i]);
      here + ArgLeaves(h, args, i + 1, r)
  }

  /** The inputs are exactly the SYMBOL leaves. */
  lemma {:induction false} InputsAreSymbolLeaves(h: Heap, r: Ref)
    requires Formula(h) && r in h.vals
    ensures forall x :: x in Inputs(h, r) <==> x in Leaves(h, r) && h.vals[x].kind == Symbol
    decreases r, 1
  {
    var v := h.vals[r];
    if v.opr.Some? {
      OperandsBelow(h, r);
      ArgInputsAreSymbolLeaves(h, v.opr.value.args, 0, r);
    }
  }

  lemma {:induction false} ArgInputsAreSymbolLeaves(h: Heap, args: seq<Ref>, i: nat, r: Ref)
    requires Formula(h) && Below(h, args, r)
    ensures forall x :: x in ArgInputs(h, args, i, r) <==>
                          x in ArgLeaves(h, args, i, r) && h.vals[x].kind == Symbol
    decreases r, 0, |args| - i
  {
    if i < |args| {
      if args[i] != NULL {
        InputsAreSymbolLeaves(h, args[i]);
      }
      ArgInputsAreSymbolLeaves(h, args, i + 1, r);
    }
  }

  // ---------------------------------------------------------------- eval

  /** The operation tags `eval` interprets on two operands. */
  const BinaryTags: set<string> := {"add", "sub", "imul", "xor", "and", "or", "shl", "shr"}

  /** A bitwise operator, named by the truth table it applies to each bit pair. */
  datatype BitOp = And | Or | Xor

  function Gate(op: BitOp, x: bool, y: bool): bool {
    match op
    case And => x && y
    case Or => x || y
    case Xor => x != y
  }

  /** The low `k` bits of `a op b`, bit by bit from the least significant. */
  function Bits(op: BitOp, a: nat, b: nat, k: nat): (r: nat)
    ensures r < Pow2(k)
    decreases k
  {
    if k == 0 then 0
    else (if Gate(op, a % 2 == 1, b % 2 == 1) then 1 else 0) + 2 * Bits(op, a / 2, b / 2, k - 1)
  }

  lemma Pow2Word()
    ensures Pow2(32) == MOD32
  {
    Pow2Sum(16, 16);
    Pow2Sum(8, 8);
    Pow2Sum(4, 4);
    Pow2Sum(2, 2);
  }

  lemma {:induction false} Pow2Sum(m: nat, n: nat)
    ensures Pow2(m + n) == Pow2(m) * Pow2(n)
    decreases n
  {
    if n > 0 {
      Pow2Sum(m, n - 1);
    }
  }

  /** `a op b` on `uint32_t`. */
  function Bitwise(op: BitOp, a: u32, b: u32): (r: u32)
    ensures forall k | 0 <= k < 32 :: NatBit(r, k) <==> Gate(op, NatBit(a, k), NatBit(b, k))
  {
    Pow2Word();
    BitsSpell(op, a, b, 32);
    Bits(op, a, b, 32)
  }

  /** Bit `j` of the result is the gate applied to bit `j` of the operands. */
  lemma {:induction false} BitsSpell(op: BitOp, a: nat, b: nat, k: nat)
    ensures forall j | 0 <= j < k :: NatBit(Bits(op, a, b, k), j) <==> Gate(op, NatBit(a, j), NatBit(b, j))
    decreases k
  {
    if k > 0 {
      var r := Bits(op, a, b, k);
      var t := Bits(op, a / 2, b / 2, k - 1);
      BitsSpell(op, a / 2, b / 2, k - 1);
      assert r % 2 == (if Gate(op, a % 2 == 1, b % 2 == 1) then 1 else 0) && r / 2 == t;
      forall j | 0 <= j < k
        ensures NatBit(r, j) <==> Gate(op, NatBit(a, j), NatBit(b, j))
      {
        if j > 0 {
          assert NatBit(r, j) == NatBit(t, j - 1);
        }
      }
    }
  }

  /** A number below `2^k` is its own low `k` bits. */
  lemma {:induction false} BitsSelf(a: nat, k: nat)
    requires a < Pow2(k)
    ensures Bits(And, a, a, k) == a
    decreases k
  {
    if k > 0 {
      BitsSelf(a / 2, k - 1);
    }
  }

  /** Applying `xor` with the same operand twice gives back the low `k` bits. */
  lemma {:induction false} XorBitsTwice(a: nat, b: nat, k: nat)
    ensures Bits(Xor, Bits(Xor, a, b, k), b, k) == Bits(And, a, a, k)
    decreases k
  {
    if k > 0 {
      var x := Bits(Xor, a, b, k);
      XorBitsTwice(a / 2, b / 2, k - 1);
      assert x % 2 == (if (a % 2 == 1) != (b % 2 == 1) then 1 else 0);
      assert x / 2 == Bits(Xor, a / 2, b / 2, k - 1);
    }
  }

  /** `a << n`: `n` doublings. */
  function ShiftLeft(a: nat, n: nat): (r: nat)
    ensures r == a * Pow2(n)
    decreases n
  {
    if n == 0 then a else 2 * ShiftLeft(a, n - 1)
  }

  /** A binary operation on `uint32_t`; a shift by 32 or more is undefined in C++. */
  function Binary(tag: string, a: u32, b: u32): (r: Result<u32>)
    requires tag in BinaryTags
    ensures r.Abort? <==> (tag == "shl" || tag == "shr") && b >= 32
  {
    if tag == "add" then Ok(Wrap(a + b))
    else if tag == "sub" then Ok(Wrap(a - b))
    else if tag == "imul" then Ok(Wrap(a * b))
    else if tag == "xor" then Ok(Bitwise(Xor, a, b))
    else if tag == "and" then Ok(Bitwise(And, a, b))
    else if tag == "or" then Ok(Bitwise(Or, a, b))
    else if b >= 32 then Abort("shift count of 32 or more")
    else if tag == "shl" then Ok(Wrap(ShiftLeft(a, b)))
    else Ok(ShiftRight(a, b))
  }

  /** The operator of a node applied to its evaluated operands; an operand slot that
      is NULL leaves its C++ variable uninitialised, so using it is a failure. Any
      other tag evaluates to 1. */
  function Apply(tag: string, x: Option<u32>, y: Option<u32>): (r: Result<u32>)
    ensures tag !in BinaryTags && tag != "neg" && tag != "inc" ==> r == Ok(1)
    ensures tag in BinaryTags && x.Some? && y.Some? ==> r == Binary(tag, x.value, y.value)
  {
    if tag in BinaryTags then
      if x.None? || y.None? then Abort("operand never initialised")
      else Binary(tag, x.value, y.value)
    else if tag == "neg" || tag == "inc" then
      if x.None? then Abort("operand never initialised")
      else if tag == "neg" then Ok(Wrap(0 - x.value as int))
      else Ok(Wrap(x.value + 1))
    else Ok(1)
  }

  /** `eval(v, inmap)`: a CONCRETE leaf is its text's number cut to 32 bits, any other
      leaf its binding; a node applies its operator to its first two operands.
      Evaluating NULL is a failure. */
  function Eval(h: Heap, r: Ref, m: Binding): (res: Result<u32>)
    requires Formula(h)
    ensures r !in h.vals ==> res.Abort?
    decreases r, 1
  {
    if r !in h.vals then Abort("NULL formula evaluated")
    else
      var v := h.vals[r];
      match v.opr
      case None => if v.kind == Concrete then Ok(Wrap(v.conval)) else Ok(Lookup(m, r))
      case Some(op) =>
        OperandsBelow(h, r);
        var x :- EvalArg(h, op.args, 0, r, m);
        var y :- EvalArg(h, op.args, 1, r, m);
        Apply(op.tag, x, y)
  }

  /** `if (op->val[i] != NULL) opi = eval(op->val[i], inmap)`. */
  function EvalArg(h: Heap, args: seq<Ref>, i: nat, r: Ref, m: Binding): (res: Result<Option<u32>>)
    requires Formula(h) && Below(h, args, r)
    ensures res.Ok? && res.value.Some? ==> i < |args| && args[i] != NULL
    decreases r, 0
  {
    if i < |args| && args[i] != NULL then
      var x :- Eval(h, args[i], m);
      Ok(Some(x))
    else Ok(None)
  }

  /** Two bindings that agree on every leaf of a formula evaluate it alike. */
  lemma {:induction false} EvalAgree(h: Heap, r: Ref, m1: Binding, m2: Binding)
    requires Formula(h) && r in h.vals
    requires forall x | x in Leaves(h, r) :: Lookup(m1, x) == Lookup(m2, x)
    ensures Eval(h, r, m1) == Eval(h, r, m2)
    decreases r
  {
    var v := h.vals[r];
    if v.opr.Some? {
      var args := v.opr.value.args;
      OperandsBelow(h, r);
      forall i | 0 <= i < 2 && i < |args| && args[i] != NULL
        ensures Eval(h, args[i], m1) == Eval(h, args[i], m2)
      {
        ArgLeavesHas(h, args, 0, r, i);
        EvalAgree(h, args[i], m1, m2);
      }
      assert EvalArg(h, args, 0, r, m1) == EvalArg(h, args, 0, r, m2);
      assert EvalArg(h, args, 1, r, m1) == EvalArg(h, args, 1, r, m2);
    }
  }

  /** The leaves under an operand are leaves of the node. */
  lemma {:induction false} ArgLeavesHas(h: Heap, args: seq<Ref>, i: nat, r: Ref, k: nat)
    requires Formula(h) && Below(h, args, r) && i <= k < |args| && args[k] != NULL
    ensures Leaves(h, args[k]) <= ArgLeaves(h, args, i, r)
    decreases k - i
  {
    if i < k {
      ArgLeavesHas(h, args, i + 1, r, k);
    }
  }

  /** Evaluation looks only at what was stored: a heap that grows evaluates an old
      formula alike. */
  lemma {:induction false} EvalGrows(h: Heap, h': Heap, r: Ref, m: Binding)
    requires Formula(h) && Formula(h') && Grows(h, h') && r in h.vals
    ensures Eval(h', r, m) == Eval(h, r, m)
    decreases r
  {
    var v := h.vals[r];
    if v.opr.Some? {
      var args := v.opr.value.args;
      OperandsBelow(h, r);
      OperandsBelow(h', r);
      forall i | 0 <= i < 2 && i < |args| && args[i] != NULL
        ensures Eval(h', args[i], m) == Eval(h, args[i], m)
      {
        EvalGrows(h, h', args[i], m);
      }
      assert EvalArg(h', args, 0, r, m) == EvalArg(h, args, 0, r, m);
      assert EvalArg(h', args, 1, r, m) == EvalArg(h, args, 1, r, m);
    }
  }

  /** A node `buildop2` makes evaluates to its operator applied to the values of its
      two operands. */
  lemma EvalBuildOp2(h: Heap, tag: string, a: Ref, b: Ref, m: Binding)
    requires Formula(h) && HeapValid(h) && a in h.vals && b in h.vals
    ensures BuildOp2(h, tag, a, b).Ok?
    ensures var (h', n) := BuildOp2(h, tag, a, b).value;
            Formula(h') &&
            Eval(h', n, m) == (var x :- Eval(h, a, m); var y :- Eval(h, b, m); Apply(tag, Some(x), Some(y)))
  {
    var (h', n) := BuildOp2(h, tag, a, b).value;
    AddNodeFormula(h, h', n, tag, a, b);
    assert a != NULL && b != NULL;
    EvalNode(h', n, tag, a, b, m);
    hide BuildOp2, Eval;
    EvalGrows(h, h', a, m);
    EvalGrows(h, h', b, m);
  }

  /** Storing a node over two stored operands under a fresh id keeps a formula heap. */
  lemma AddNodeFormula(h: Heap, h': Heap, n: Ref, tag: string, a: Ref, b: Ref)
    requires Formula(h) && HeapValid(h) && a in h.vals && b in h.vals
    requires n == h.seed + 1 && h'.seed == n && n in h'.vals
    requires h'.vals == h.vals[n := h'.vals[n]] && h'.vals[n].opr == Some(Operation(tag, [a, b]))
    ensures Formula(h') && Grows(h, h')
  {
    forall x | x in h'.vals && h'.vals[x].opr.Some?
      ensures forall i | 0 <= i < |h'.vals[x].opr.value.args| ::
                h'.vals[x].opr.value.args[i] < x &&
                (h'.vals[x].opr.value.args[i] == NULL || h'.vals[x].opr.value.args[i] in h'.vals)
    {
      if x != n {
        assert x in h.vals && h'.vals[x] == h.vals[x];
      }
    }
  }

  /** A node over two stored operands evaluates to its operator applied to theirs. */
  lemma EvalNode(h: Heap, n: Ref, tag: string, a: Ref, b: Ref, m: Binding)
    requires Formula(h) && n in h.vals && a in h.vals && b in h.vals && a != NULL && b != NULL
    requires h.vals[n].opr == Some(Operation(tag, [a, b]))
    ensures Eval(h, n, m) == (var x :- Eval(h, a, m); var y :- Eval(h, b, m); Apply(tag, Some(x), Some(y)))
  {
    OperandsBelow(h, n);
    var args := h.vals[n].opr.value.args;
    assert args == [a, b];
    var ea, eb := EvalArg(h, args, 0, n, m), EvalArg(h, args, 1, n, m);
    assert Eval(h, n, m) == (var x :- ea; var y :- eb; Apply(tag, x, y));
    assert ea == (var x :- Eval(h, a, m); Ok(Some(x)));
    assert eb == (var y :- Eval(h, b, m); Ok(Some(y)));
  }

  // ---------------------------------------------------------------- the operators

  /** `sub` undoes `add` and `add` undoes `sub`, modulo 2^32. */
  lemma AddSubInverse(a: u32, b: u32)
    ensures Binary("sub", Binary("add", a, b).value, b) == Ok(a)
    ensures Binary("add", Binary("sub", a, b).value, b) == Ok(a)
  {
  }

  /** `neg` is the two's complement: it adds to its operand to give 0. */
  lemma NegIsComplement(a: u32)
    ensures Apply("neg", Some(a), None).Ok?
    ensures Binary("add", Apply("neg", Some(a), None).value, a) == Ok(0)
    ensures Apply("neg", Some(a), None) == Binary("sub", 0, a)
  {
  }

  /** `xor` with the same operand twice is the identity. */
  lemma XorTwice(a: u32, b: u32)
    ensures Binary("xor", Binary("xor", a, b).value, b) == Ok(a)
  {
    Pow2Word();
    var x := Bitwise(Xor, a, b);
    XorBitsTwice(a, b, 32);
    BitsSelf(a, 32);
  }

  /** A left shift is multiplication by the power of two, cut to 32 bits. */
  lemma ShlIsMul(a: u32, n: nat)
    requires n < 32
    ensures Pow2(n) < MOD32
    ensures Binary("shl", a, n) == Binary("imul", a, Pow2(n))
  {
    Pow2Below(n, 32);
    Pow2Word();
  }

  lemma {:induction false} Pow2Below(n: nat, m: nat)
    requires n < m
    ensures Pow2(n) < Pow2(m)
    decreases m
  {
    if n < m - 1 {
      Pow2Below(n, m - 1);
    }
  }

  // ---------------------------------------------------------------- conexec and buildinmap

  /** `conexec(f, inmap)`: 1 unless the binding's keys are exactly the formula's
      inputs, in which case the formula's value. `getInputs(NULL)` dereferences
      NULL. */
  function ConExec(h: Heap, r: Ref, m: Binding): (res: Result<u32>)
    requires Formula(h)
    ensures r !in h.vals ==> res.Abort?
    ensures r in h.vals && m.Keys != Inputs(h, r) ==> res == Ok(1)
  {
    if r !in h.vals then Abort("NULL formula")
    else if m.Keys != Inputs(h, r) then Ok(1)
    else Eval(h, r, m)
  }

  /** A binding `conexec` accepts gives the formula's value with every HYBRID leaf
      read as 0: any binding that agrees with it on the inputs and binds no other
      leaf evaluates the formula alike. */
  lemma ConExecBinding(h: Heap, r: Ref, m: Binding, m': Binding)
    requires Formula(h) && r in h.vals && m.Keys == Inputs(h, r)
    requires forall x | x in Inputs(h, r) :: x in m' && m'[x] == m[x]
    requires forall x | x in Leaves(h, r) && x !in Inputs(h, r) :: x !in m'
    ensures ConExec(h, r, m) == Eval(h, r, m')
  {
    InputsAreSymbolLeaves(h, r);
    EvalAgree(h, r, m, m');
  }

  // ---------------------------------------------------------------- the binding eval leaves behind

  /** `(*inmap)[v]` is `operator[]`: reading a leaf the binding lacks inserts it with
      the value 0. `EvalMap` is `eval` with the binding it leaves behind, threaded
      through the same visits. */
  function EvalMap(h: Heap, r: Ref, m: Binding): (res: Result<(u32, Binding)>)
    requires Formula(h)
    ensures r !in h.vals ==> res.Abort?
    ensures res.Ok? ==> m.Keys <= res.value.1.Keys
    decreases r, 1
  {
    if r !in h.vals then Abort("NULL formula evaluated")
    else
      var v := h.vals[r];
      match v.opr
      case None =>
        if v.kind == Concrete then Ok((Wrap(v.conval), m))
        else Ok((Lookup(m, r), m[r := Lookup(m, r)]))
      case Some(op) =>
        OperandsBelow(h, r);
        var p :- EvalArgMap(h, op.args, 0, r, m);
        var q :- EvalArgMap(h, op.args, 1, r, p.1);
        var z :- Apply(op.tag, p.0, q.0);
        Ok((z, q.1))
  }

  function EvalArgMap(h: Heap, args: seq<Ref>, i: nat, r: Ref, m: Binding): (res: Result<(Option<u32>, Binding)>)
    requires Formula(h) && Below(h, args, r)
    ensures res.Ok? ==> m.Keys <= res.value.1.Keys
    decreases r, 0
  {
    if i < |args| && args[i] != NULL then
      var p :- EvalMap(h, args[i], m);
      Ok((Some(p.0), p.1))
    else Ok((None, m))
  }

  /** The leaves `eval` reads: operation-less, non-CONCRETE values reached through the
      first two operand slots (the third is never evaluated). */
  function Visited(h: Heap, r: Ref): (s: set<Ref>)
    requires Formula(h) && r in h.vals
    ensures forall x | x in s :: x in h.vals && h.vals[x].opr.None? && h.vals[x].kind != Concrete
    decreases r, 1
  {
    var v := h.vals[r];
    if v.opr.None? then (if v.kind != Concrete then {r} else {})
    else
      OperandsBelow(h, r);
      ArgVisited(h, v.opr.value.args, 0, r) + ArgVisited(h, v.opr.value.args, 1, r)
  }

  function ArgVisited(h: Heap, args: seq<Ref>, i: nat, r: Ref): (s: set<Ref>)
    requires Formula(h) && Below(h, args, r)
    ensures forall x | x in s :: x in h.vals && h.vals[x].opr.None? && h.vals[x].kind != Concrete
    decreases r, 0
  {
    if i < |args| && args[i] != NULL then Visited(h, args[i]) else {}
  }

  /** `m` with every key of `s` it lacks bound to 0. */
  function Fill(m: Binding, s: set<Ref>): (m': Binding)
    ensures m'.Keys == m.Keys + s
    ensures forall x :: Lookup(m', x) == Lookup(m, x)
  {
    map x | x in m.Keys + s :: Lookup(m, x)
  }

  /** The leaves `eval` visits are leaves of the formula. */
  lemma {:induction false} VisitedAreLeaves(h: Heap, r: Ref)
    requires Formula(h) && r in h.vals
    ensures Visited(h, r) <= Leaves(h, r)
    decreases r
  {
    var v := h.vals[r];
    if v.opr.Some? {
      var args := v.opr.value.args;
      OperandsBelow(h, r);
      forall i | 0 <= i < 2 && i < |args| && args[i] != NULL
        ensures Visited(h, args[i]) <= Leaves(h, r)
      {
        ArgLeavesHas(h, args, 0, r, i);
        VisitedAreLeaves(h, args[i]);
      }
    }
  }

  /** `EvalMap` computes `eval`'s value, and leaves behind the binding with a 0 added
      for every visited leaf it lacked; nothing already bound changes. */
  lemma {:induction false} EvalMapMeaning(h: Heap, r: Ref, m: Binding)
    requires Formula(h) && r in h.vals
    ensures EvalMap(h, r, m).Ok? <==> Eval(h, r, m).Ok?
    ensures EvalMap(h, r, m).Ok? ==>
              EvalMap(h, r, m).value == (Eval(h, r, m).value, Fill(m, Visited(h, r)))
    decreases r, 1
  {
    var v := h.vals[r];
    if v.opr.None? {
      if v.kind != Concrete {
        assert m[r := Lookup(m, r)] == Fill(m, {r});
      } else {
        assert m == Fill(m, {});
      }
    } else {
      var args := v.opr.value.args;
      OperandsBelow(h, r);
      var m1 := Fill(m, ArgVisited(h, args, 0, r));
      ArgMapMeaning(h, args, 0, r, m);
      ArgMapMeaning(h, args, 1, r, m1);
      if 1 < |args| && args[1] != NULL {
        EvalAgree(h, args[1], m1, m);
      }
      EvalMapNode(h, r, m);
    }
  }

  /** The node case of `EvalMapMeaning`, given what it says of the two slots. */
  lemma EvalMapNode(h: Heap, r: Ref, m: Binding)
    requires Formula(h) && r in h.vals && h.vals[r].opr.Some?
    requires Below(h, h.vals[r].opr.value.args, r)
    requires var args := h.vals[r].opr.value.args;
             && (EvalArgMap(h, args, 0, r, m).Ok? <==> EvalArg(h, args, 0, r, m).Ok?)
             && (EvalArgMap(h, args, 0, r, m).Ok? ==>
                   EvalArgMap(h, args, 0, r, m).value == (EvalArg(h, args, 0, r, m).value, Fill(m, ArgVisited(h, args, 0, r))))
    requires var args := h.vals[r].opr.value.args;
             var m1 := Fill(m, ArgVisited(h, args, 0, r));
             && (EvalArgMap(h, args, 1, r, m1).Ok? <==> EvalArg(h, args, 1, r, m1).Ok?)
             && (EvalArgMap(h, args, 1, r, m1).Ok? ==>
                   EvalArgMap(h, args, 1, r, m1).value == (EvalArg(h, args, 1, r, m1).value, Fill(m1, ArgVisited(h, args, 1, r))))
             && EvalArg(h, args, 1, r, m1) == EvalArg(h, args, 1, r, m)
    ensures EvalMap(h, r, m).Ok? <==> Eval(h, r, m).Ok?
    ensures EvalMap(h, r, m).Ok? ==>
              EvalMap(h, r, m).value == (Eval(h, r, m).value, Fill(m, Visited(h, r)))
  {
    var args := h.vals[r].opr.value.args;
    var v0, v1 := ArgVisited(h, args, 0, r), ArgVisited(h, args, 1, r);
    FillTwice(m, v0, v1);
    hide EvalArgMap, EvalArg, Apply, ArgVisited, Leaves, Inputs, Wrap, Fill;
    assert Visited(h, r) == v0 + v1;
  }

  /** Filling in two rounds is filling once with both sets. */
  lemma FillTwice(m: Binding, a: set<Ref>, b: set<Ref>)
    ensures Fill(Fill(m, a), b) == Fill(m, a + b)
  {
  }

  lemma {:induction false} ArgMapMeaning(h: Heap, args: seq<Ref>, i: nat, r: Ref, m: Binding)
    requires Formula(h) && Below(h, args, r)
    ensures EvalArgMap(h, args, i, r, m).Ok? <==> EvalArg(h, args, i, r, m).Ok?
    ensures EvalArgMap(h, args, i, r, m).Ok? ==>
              EvalArgMap(h, args, i, r, m).value == (EvalArg(h, args, i, r, m).value, Fill(m, ArgVisited(h, args, i, r)))
    decreases r, 0
  {
    if i < |args| && args[i] != NULL {
      EvalMapMeaning(h, args[i], m);
    } else {
      assert m == Fill(m, {});
    }
  }

  /** `conexec` together with the binding it leaves behind: when it evaluates, every
      HYBRID leaf it reads is now a key. */
  function ConExecMap(h: Heap, r: Ref, m: Binding): (res: Result<(u32, Binding)>)
    requires Formula(h)
    ensures res.Ok? <==> ConExec(h, r, m).Ok?
    ensures res.Ok? ==> res.value.0 == ConExec(h, r, m).value
  {
    if r !in h.vals then Abort("NULL formula")
    else if m.Keys != Inputs(h, r) then Ok((1, m))
    else
      EvalMapMeaning(h, r, m);
      EvalMap(h, r, m)
  }

  /** A second `conexec` with the same binding: if the first evaluation read a HYBRID
      leaf, its inserted 0 makes the keys differ from the inputs and the second call
      returns 1; if every leaf read was a SYMBOL, the binding is unchanged and the
      second call repeats the first. */
  lemma ConExecRepeat(h: Heap, r: Ref, m: Binding)
    requires Formula(h) && r in h.vals && ConExecMap(h, r, m).Ok?
    ensures m.Keys == Inputs(h, r) && (exists x :: x in Visited(h, r) && h.vals[x].kind == Hybrid) ==>
              ConExec(h, r, ConExecMap(h, r, m).value.1) == Ok(1)
    ensures (forall x | x in Visited(h, r) :: h.vals[x].kind == Symbol) ==>
              ConExec(h, r, ConExecMap(h, r, m).value.1) == ConExec(h, r, m)
  {
    if m.Keys == Inputs(h, r) {
      EvalMapMeaning(h, r, m);
      hide Eval, EvalMap, Apply, Leaves, Visited, Inputs, Fill;
      assert ConExecMap(h, r, m).value.1 == Fill(m, Visited(h, r));
      if x :| x in Visited(h, r) && h.vals[x].kind == Hybrid {
        FillHybridKey(h, r, m, x);
      }
      if forall x | x in Visited(h, r) :: h.vals[x].kind == Symbol {
        FillSymbolKeys(h, r, m);
      }
    }
  }

  /** A HYBRID leaf that was read is a key afterwards, and no input is HYBRID. */
  lemma FillHybridKey(h: Heap, r: Ref, m: Binding, x: Ref)
    requires Formula(h) && r in h.vals && x in Visited(h, r) && h.vals[x].kind == Hybrid
    ensures Fill(m, Visited(h, r)).Keys != Inputs(h, r)
  {
    assert x in Fill(m, Visited(h, r)).Keys;
    assert x !in Inputs(h, r);
  }

  /** When every leaf read is a SYMBOL, each is an input, so nothing is inserted. */
  lemma FillSymbolKeys(h: Heap, r: Ref, m: Binding)
    requires Formula(h) && r in h.vals && m.Keys == Inputs(h, r)
    requires forall x | x in Visited(h, r) :: h.vals[x].kind == Symbol
    ensures Fill(m, Visited(h, r)) == m
  {
    VisitedAreLeaves(h, r);
    InputsAreSymbolLeaves(h, r);
    assert Fill(m, Visited(h, r)).Keys == m.Keys;
  }

  /** `buildinmap(vv, input)`: empty when the sizes differ, otherwise each variable
      bound to the input at its first position (`map::insert` keeps an existing key). */
  function BuildInMap(vv: seq<Ref>, input: seq<u32>): (m: Binding)
    ensures |vv| != |input| ==> m == map[]
    ensures |vv| == |input| ==> m.Keys == set i | 0 <= i < |vv| :: vv[i]
  {
    if |vv| != |input| then map[] else Bind(map[], vv, input, 0)
  }

  function Bind(m: Binding, vv: seq<Ref>, input: seq<u32>, i: nat): (r: Binding)
    requires |vv| == |input| && i <= |vv|
    ensures r.Keys == m.Keys + set j | i <= j < |vv| :: vv[j]
    ensures forall x | x in m :: r[x] == m[x]
    decreases |vv| - i
  {
    if i == |vv| then m
    else
      var r := Bind(if vv[i] in m then m else m[vv[i] := input[i]], vv, input, i + 1);
      assert (set j | i <= j < |vv| :: vv[j]) == {vv[i]} + set j | i + 1 <= j < |vv| :: vv[j];
      r
  }

  /** Each variable is bound to the input at its first position. */
  lemma {:induction false} BindFirst(m: Binding, vv: seq<Ref>, input: seq<u32>, i: nat, k: nat)
    requires |vv| == |input| && i <= k < |vv| && vv[k] !in m
    requires forall j | i <= j < k :: vv[j] != vv[k]
    ensures Bind(m, vv, input, i)[vv[k]] == input[k]
    decreases |vv| - i
  {
    if i < k {
      var m' := if vv[i] in m then m else m[vv[i] := input[i]];
      BindFirst(m', vv, input, i + 1, k);
    }
  }

  /** For distinct variables and one input each, the map binds the i-th variable to
      the i-th input. */
  lemma BuildInMapDistinct(vv: seq<Ref>, input: seq<u32>, i: nat)
    requires |vv| == |input| && i < |vv|
    requires forall a, b | 0 <= a < b < |vv| :: vv[a] != vv[b]
    ensures BuildInMap(vv, input)[vv[i]] == input[i]
  {
    BindFirst(map[], vv, input, 0, i);
  }

  // ---------------------------------------------------------------- calcAddr

  /** `getRegConVal(reg)`: the recorded value of a 32-bit register in the current
      instruction's context, and 0 for any other name. */
  function RegConVal(ctxreg: seq<u32>, reg: string): u32
    requires |ctxreg| == 8
  {
    if reg == "eax" then ctxreg[0]
    else if reg == "ebx" then ctxreg[1]
    else if reg == "ecx" then ctxreg[2]
    else if reg == "edx" then ctxreg[3]
    else if reg == "esi" then ctxreg[4]
    else if reg == "edi" then ctxreg[5]
    else if reg == "esp" then ctxreg[6]
    else if reg == "ebp" then ctxreg[7]
    else
      assert reg !in SymEngine.RegNames;
      0
  }

  /** A 32-bit register reads its recorded context value, in the order of the
      saved registers; any other name reads 0. */
  lemma RegConValReads(ctxreg: seq<u32>, reg: string)
    requires |ctxreg| == 8
    ensures reg in SymEngine.RegNames ==> RegConVal(ctxreg, reg) == ctxreg[SymEngine.RegIndex(reg)]
    ensures reg !in SymEngine.RegNames ==> RegConVal(ctxreg, reg) == 0
  {
    if reg in SymEngine.RegNames {
      var i := SymEngine.RegIndex(reg);
      RegConValAt(ctxreg, i);
    }
  }

  /** The `i`-th saved register reads the `i`-th context value. */
  lemma RegConValAt(ctxreg: seq<u32>, i: nat)
    requires |ctxreg| == 8 && i < 8
    ensures RegConVal(ctxreg, Core.GeneralRegs[i]) == ctxreg[i]
  {
    var g := Core.GeneralRegs;
    assert g[0] == "eax" && g[1] == "ebx" && g[2] == "ecx" && g[3] == "edx";
    assert g[4] == "esi" && g[5] == "edi" && g[6] == "esp" && g[7] == "ebp";
  }

  /** `stoul(text, 0, 16)` assigned to an `ADDR32`. */
  function Disp(text: string): (r: Result<u32>)
    ensures r.Ok? <==> Hex.ParseHex(text).Some?
  {
    var c := Hex.ParseHex(text);
    if c.None? then Abort("stoul: no hex digits") else Ok(Wrap(c.value))
  }

  /** `stoi(text)` into an `int32_t`. */
  function Scale(text: string): (r: Result<int>)
    ensures r.Ok? <==> Hex.ParseDec(text).Some?
  {
    var n := Hex.ParseDec(text);
    if n.None? then Abort("stoi: no decimal digits") else Ok(n.value)
  }

  /** `base + sign c` in `ADDR32`; a sign other than `+` or `-` gives 0. */
  function Signed(base: int, sign: string, c: u32): u32 {
    if sign == "+" then Wrap(base + c) else if sign == "-" then Wrap(base - c) else 0
  }

  /** A register's value times the scale factor. */
  function Scaled(v: u32, n: int): int {
    v * n
  }

  /** The context value of the register named in field `k` of an address operand. */
  function FieldValue(opr: Core.Operand, ctxreg: seq<u32>, k: nat): u32
    requires |ctxreg| == 8
  {
    RegConVal(ctxreg, opr.Field(k))
  }

  /** `calcAddr(opr)`: the address a memory operand denotes in the current context,
      by the address shape the parser recognised (its tag), in 32-bit wrapping
      arithmetic; an unknown tag gives 0. */
  function CalcAddr(opr: Core.Operand, ctxreg: seq<u32>): (r: Result<u32>)
    requires |ctxreg| == 8
  {
    if opr.tag == 7 then
      var n :- Scale(opr.Field(2));
      var c :- Disp(opr.Field(4));
      Ok(Signed(FieldValue(opr, ctxreg, 0) + Scaled(FieldValue(opr, ctxreg, 1), n), opr.Field(3), c))
    else if opr.tag == 4 then
      var c :- Disp(opr.Field(2));
      Ok(Signed(FieldValue(opr, ctxreg, 0), opr.Field(1), c))
    else if opr.tag == 5 then
      var n :- Scale(opr.Field(2));
      Ok(Wrap(FieldValue(opr, ctxreg, 0) + Scaled(FieldValue(opr, ctxreg, 1), n)))
    else if opr.tag == 6 then
      var n :- Scale(opr.Field(1));
      var c :- Disp(opr.Field(3));
      Ok(Signed(Scaled(FieldValue(opr, ctxreg, 0), n), opr.Field(2), c))
    else if opr.tag == 3 then
      var n :- Scale(opr.Field(1));
      Ok(Wrap(Scaled(FieldValue(opr, ctxreg, 0), n)))
    else if opr.tag == 1 then Disp(opr.Field(0))
    else if opr.tag == 2 then Ok(FieldValue(opr, ctxreg, 0))
    else Ok(0)
  }

  /** A memory operand of the given tag and fields. */
  function AddrOperand(tag: int, fields: seq<string>): Core.Operand {
    Core.Operand(Core.Mem, tag, 32, false, "", fields)
  }

  /** `[r1 + r2*n]` is `[r1 + r2*n + 0x0]`: the form without a displacement agrees
      with the full form. */
  lemma CalcAddrNoDisp(ctxreg: seq<u32>, r1: string, r2: string, n: string)
    requires |ctxreg| == 8 && Hex.ParseDec(n).Some?
    ensures CalcAddr(AddrOperand(5, [r1, r2, n, "", ""]), ctxreg) ==
            CalcAddr(AddrOperand(7, [r1, r2, n, "+", "0x0"]), ctxreg)
  {
    hide RegConVal, Hex.ParseDec, Hex.ParseHex, Scale, Disp, Wrap, Signed, Scaled, FieldValue, CalcAddr;
    var k := Hex.ParseDec(n).value;
    var o5, o7 := AddrOperand(5, [r1, r2, n, "", ""]), AddrOperand(7, [r1, r2, n, "+", "0x0"]);
    ScaleZeroDisp(n);
    FieldValueAgree(o5, o7, ctxreg, 0);
    FieldValueAgree(o5, o7, ctxreg, 1);
    var x := FieldValue(o5, ctxreg, 0) + Scaled(FieldValue(o5, ctxreg, 1), k);
    SignedPlusZero(x);
    CalcAddrIndexed(o5, ctxreg, k, x);
    CalcAddrIndexedDisp(o7, ctxreg, k, 0, x);
  }

  /** `[r2*n]` is `[r2*n + 0x0]`. */
  lemma CalcAddrScaledNoDisp(ctxreg: seq<u32>, r2: string, n: string)
    requires |ctxreg| == 8 && Hex.ParseDec(n).Some?
    ensures CalcAddr(AddrOperand(3, [r2, n, "", "", ""]), ctxreg) ==
            CalcAddr(AddrOperand(6, [r2, n, "+", "0x0", ""]), ctxreg)
  {
    hide RegConVal, Hex.ParseDec, Hex.ParseHex, Scale, Disp, Wrap, Signed, Scaled, FieldValue, CalcAddr;
    var k := Hex.ParseDec(n).value;
    var o3, o6 := AddrOperand(3, [r2, n, "", "", ""]), AddrOperand(6, [r2, n, "+", "0x0", ""]);
    ScaleZeroDisp(n);
    FieldValueAgree(o3, o6, ctxreg, 0);
    var x := Scaled(FieldValue(o3, ctxreg, 0), k);
    SignedPlusZero(x);
    CalcAddrScaled(o3, ctxreg, k, x);
    CalcAddrScaledDisp(o6, ctxreg, k, 0, x);
  }

  /** `[r1]` is `[r1 + 0x0]`. */
  lemma CalcAddrRegNoDisp(ctxreg: seq<u32>, r1: string)
    requires |ctxreg| == 8
    ensures CalcAddr(AddrOperand(2, [r1, "", "", "", ""]), ctxreg) ==
            CalcAddr(AddrOperand(4, [r1, "+", "0x0", "", ""]), ctxreg)
  {
    hide RegConVal, Hex.ParseDec, Hex.ParseHex, Scale, Disp, Wrap, Signed, Scaled, FieldValue, CalcAddr;
    var o2, o4 := AddrOperand(2, [r1, "", "", "", ""]), AddrOperand(4, [r1, "+", "0x0", "", ""]);
    DispZero();
    FieldValueAgree(o2, o4, ctxreg, 0);
    var v := FieldValue(o2, ctxreg, 0);
    SignedPlusZero(v);
    CalcAddrBase(o2, ctxreg);
    CalcAddrBaseDisp(o4, ctxreg, 0);
  }

  /** Two operands naming the same register in a field read the same value from it. */
  lemma FieldValueAgree(o: Core.Operand, o': Core.Operand, ctxreg: seq<u32>, k: nat)
    requires |ctxreg| == 8 && o.Field(k) == o'.Field(k)
    ensures FieldValue(o, ctxreg, k) == FieldValue(o', ctxreg, k)
  {
    hide RegConVal;
  }

  /** Adding a `+ 0x0` displacement only truncates. */
  lemma SignedPlusZero(x: int)
    ensures Signed(x, "+", 0) == Wrap(x)
    ensures 0 <= x < MOD32 ==> Signed(x, "+", 0) == x
  { }

  /** A scale that reads as a number, and the zero displacement. */
  lemma ScaleZeroDisp(n: string)
    requires Hex.ParseDec(n).Some?
    ensures Scale(n) == Ok(Hex.ParseDec(n).value)
    ensures Disp("0x0") == Ok(0)
  {
    DispZero();
  }

  lemma DispOk(c: string)
    requires Hex.ParseHex(c).Some?
    ensures Disp(c) == Ok(Wrap(Hex.ParseHex(c).value))
  { }

  lemma DispZero()
    ensures Disp("0x0") == Ok(0)
  {
    HexZero();
  }

  lemma CalcAddrIndexed(opr: Core.Operand, ctxreg: seq<u32>, k: int, x: int)
    requires |ctxreg| == 8 && opr.tag == 5 && Scale(opr.Field(2)) == Ok(k)
    requires x == FieldValue(opr, ctxreg, 0) + Scaled(FieldValue(opr, ctxreg, 1), k)
    ensures CalcAddr(opr, ctxreg) == Ok(Wrap(x))
  {
    hide RegConVal, Scale, Disp, Wrap, Signed, Scaled, FieldValue;
  }

  lemma CalcAddrIndexedDisp(opr: Core.Operand, ctxreg: seq<u32>, k: int, c: u32, x: int)
    requires |ctxreg| == 8 && opr.tag == 7 && Scale(opr.Field(2)) == Ok(k) && Disp(opr.Field(4)) == Ok(c)
    requires x == FieldValue(opr, ctxreg, 0) + Scaled(FieldValue(opr, ctxreg, 1), k)
    ensures CalcAddr(opr, ctxreg) == Ok(Signed(x, opr.Field(3), c))
  {
    hide RegConVal, Scale, Disp, Wrap, Signed, Scaled, FieldValue;
  }

  lemma CalcAddrScaled(opr: Core.Operand, ctxreg: seq<u32>, k: int, x: int)
    requires |ctxreg| == 8 && opr.tag == 3 && Scale(opr.Field(1)) == Ok(k)
    requires x == Scaled(FieldValue(opr, ctxreg, 0), k)
    ensures CalcAddr(opr, ctxreg) == Ok(Wrap(x))
  {
    hide RegConVal, Scale, Disp, Wrap, Signed, Scaled, FieldValue;
  }

  lemma CalcAddrScaledDisp(opr: Core.Operand, ctxreg: seq<u32>, k: int, c: u32, x: int)
    requires |ctxreg| == 8 && opr.tag == 6 && Scale(opr.Field(1)) == Ok(k) && Disp(opr.Field(3)) == Ok(c)
    requires x == Scaled(FieldValue(opr, ctxreg, 0), k)
    ensures CalcAddr(opr, ctxreg) == Ok(Signed(x, opr.Field(2), c))
  {
    hide RegConVal, Scale, Disp, Wrap, Signed, Scaled, FieldValue;
  }

  lemma CalcAddrBase(opr: Core.Operand, ctxreg: seq<u32>)
    requires |ctxreg| == 8 && opr.tag == 2
    ensures CalcAddr(opr, ctxreg) == Ok(FieldValue(opr, ctxreg, 0))
  {
    hide RegConVal, Scale, Disp, Wrap, Signed, Scaled, FieldValue;
  }

  lemma CalcAddrBaseDisp(opr: Core.Operand, ctxreg: seq<u32>, c: u32)
    requires |ctxreg| == 8 && opr.tag == 4 && Disp(opr.Field(2)) == Ok(c)
    ensures CalcAddr(opr, ctxreg) == Ok(Signed(FieldValue(opr, ctxreg, 0), opr.Field(1), c))
  {
    hide RegConVal, Scale, Disp, Wrap, Signed, Scaled, FieldValue;
  }

  lemma HexZero()
    ensures Hex.ParseHex("0x0") == Some(0)
  {
    assert Hex.SkipSpace("0x0") == "0x0";
    assert "0x0"[2..] == "0";
    assert Hex.DigitRun("0") == 1 by { assert "0"[1..] == ""; }
    assert "0"[..1] == "0" && "0"[..0] == "";
  }

  /** `[r1 - c]` and `[r1 + c]` lie `2c` apart, modulo 2^32. */
  lemma CalcAddrSign(ctxreg: seq<u32>, r1: string, c: string)
    requires |ctxreg| == 8 && Hex.ParseHex(c).Some?
    ensures var plus := CalcAddr(AddrOperand(4, [r1, "+", c, "", ""]), ctxreg);
            var minus := CalcAddr(AddrOperand(4, [r1, "-", c, "", ""]), ctxreg);
            plus.Ok? && minus.Ok? && Wrap(minus.value + 2 * Wrap(Hex.ParseHex(c).value)) == plus.value
  {
    hide RegConVal, Hex.ParseDec, Hex.ParseHex, Scale, Disp, Scaled, FieldValue, CalcAddr;
    var op, om := AddrOperand(4, [r1, "+", c, "", ""]), AddrOperand(4, [r1, "-", c, "", ""]);
    var d: int := Wrap(Hex.ParseHex(c).value);
    DispOk(c);
    FieldValueAgree(op, om, ctxreg, 0);
    var base: int := FieldValue(op, ctxreg, 0);
    CalcAddrBaseDisp(op, ctxreg, d);
    CalcAddrBaseDisp(om, ctxreg, d);
    WrapAdd(base - d, 2 * d);
  }

  // ---------------------------------------------------------------- effective addresses

  /** An IA-32 effective address: an optional base register, an optional index
      register with its scale, and a signed displacement. */
  datatype Effective = Effective(base: Option<string>, index: Option<(string, int)>, disp: int)

  /** `base + index * scale + disp` over the context values, modulo 2^32. */
  function EffectiveValue(a: Effective, ctxreg: seq<u32>): u32
    requires |ctxreg| == 8
  {
    var b := if a.base.Some? then RegConVal(ctxreg, a.base.value) else 0;
    var x := if a.index.Some? then RegConVal(ctxreg, a.index.value.0) * a.index.value.1 else 0;
    Wrap(b + x + a.disp)
  }

  /** A displacement field with its sign field, `+` or `-`. */
  function SignedDisp(sign: string, text: string): Result<int> {
    var c :- Disp(text);
    Ok(SignedVal(sign, c))
  }

  /** A displacement `c` under its sign. */
  function SignedVal(sign: string, c: u32): int {
    if sign == "-" then 0 - c else c
  }

  /** The effective address the parser's fields spell, by address shape:
      `[r1 + r2*n +- c]` (7), `[r1 +- c]` (4), `[r1 + r2*n]` (5), `[r2*n +- c]` (6),
      `[r2*n]` (3), `[c]` (1) and `[r1]` (2). */
  function EffectiveOf(opr: Core.Operand): Result<Effective>
    requires 1 <= opr.tag <= 7
  {
    if opr.tag == 7 then
      var n :- Scale(opr.Field(2));
      var d :- SignedDisp(opr.Field(3), opr.Field(4));
      Ok(Effective(Some(opr.Field(0)), Some((opr.Field(1), n)), d))
    else if opr.tag == 4 then
      var d :- SignedDisp(opr.Field(1), opr.Field(2));
      Ok(Effective(Some(opr.Field(0)), None, d))
    else if opr.tag == 5 then
      var n :- Scale(opr.Field(2));
      Ok(Effective(Some(opr.Field(0)), Some((opr.Field(1), n)), 0))
    else if opr.tag == 6 then
      var n :- Scale(opr.Field(1));
      var d :- SignedDisp(opr.Field(2), opr.Field(3));
      Ok(Effective(None, Some((opr.Field(0), n)), d))
    else if opr.tag == 3 then
      var n :- Scale(opr.Field(1));
      Ok(Effective(None, Some((opr.Field(0), n)), 0))
    else if opr.tag == 1 then
      var d :- SignedDisp("+", opr.Field(0));
      Ok(Effective(None, None, d))
    else Ok(Effective(Some(opr.Field(0)), None, 0))
  }

  /** The sign fields of the shapes with a displacement are `+` or `-`. */
  predicate SignsKnown(opr: Core.Operand) {
    && (opr.tag == 7 ==> opr.Field(3) in {"+", "-"})
    && (opr.tag == 4 ==> opr.Field(1) in {"+", "-"})
    && (opr.tag == 6 ==> opr.Field(2) in {"+", "-"})
  }

  /** With a `+` or `-` sign, `Signed` adds the signed displacement. */
  lemma SignedIsDisp(b: int, sign: string, c: u32)
    requires sign in {"+", "-"}
    ensures Signed(b, sign, c) == Wrap(b + SignedVal(sign, c))
  {
    hide Wrap;
  }

  /** For every address shape, `calcAddr` computes the effective address
      `base + index * scale + disp` modulo 2^32, and fails exactly when a scale or
      displacement field does not read as a number. */
  lemma CalcAddrIsEffective(opr: Core.Operand, ctxreg: seq<u32>)
    requires |ctxreg| == 8 && 1 <= opr.tag <= 7 && SignsKnown(opr)
    ensures CalcAddr(opr, ctxreg).Ok? <==> EffectiveOf(opr).Ok?
    ensures EffectiveOf(opr).Ok? ==> CalcAddr(opr, ctxreg).value == EffectiveValue(EffectiveOf(opr).value, ctxreg)
  {
    hide CalcAddr, EffectiveOf, EffectiveValue, SignsKnown;
    if opr.tag == 7 {
      EffectiveIndexedDisp(opr, ctxreg);
    } else if opr.tag == 4 {
      EffectiveBaseDisp(opr, ctxreg);
    } else if opr.tag == 6 {
      EffectiveScaledDisp(opr, ctxreg);
    } else if opr.tag in {5, 3} {
      EffectiveScaled(opr, ctxreg);
    } else {
      EffectivePlain(opr, ctxreg);
    }
  }

  lemma EffectiveIndexedDisp(opr: Core.Operand, ctxreg: seq<u32>)
    requires |ctxreg| == 8 && opr.tag == 7 && SignsKnown(opr)
    ensures CalcAddr(opr, ctxreg).Ok? <==> EffectiveOf(opr).Ok?
    ensures EffectiveOf(opr).Ok? ==> CalcAddr(opr, ctxreg).value == EffectiveValue(EffectiveOf(opr).value, ctxreg)
  {
    hide RegConVal, Hex.ParseDec, Hex.ParseHex, Wrap, Scale, Disp;
  }

  lemma EffectiveBaseDisp(opr: Core.Operand, ctxreg: seq<u32>)
    requires |ctxreg| == 8 && opr.tag == 4 && SignsKnown(opr)
    ensures CalcAddr(opr, ctxreg).Ok? <==> EffectiveOf(opr).Ok?
    ensures EffectiveOf(opr).Ok? ==> CalcAddr(opr, ctxreg).value == EffectiveValue(EffectiveOf(opr).value, ctxreg)
  {
    hide CalcAddr, EffectiveOf, EffectiveValue, Signed, SignedDisp, SignedVal, FieldValue, RegConVal, Hex.ParseHex, Wrap, Disp;
    BaseDispParts(opr, ctxreg);
    if Disp(opr.Field(2)).Ok? {
      SignedIsDisp(FieldValue(opr, ctxreg, 0), opr.Field(1), Disp(opr.Field(2)).value);
    }
  }

  lemma BaseDispParts(opr: Core.Operand, ctxreg: seq<u32>)
    requires |ctxreg| == 8 && opr.tag == 4
    ensures Disp(opr.Field(2)).Abort? ==> CalcAddr(opr, ctxreg).Abort? && EffectiveOf(opr).Abort?
    ensures Disp(opr.Field(2)).Ok? ==>
              var c := Disp(opr.Field(2)).value;
              && CalcAddr(opr, ctxreg) == Ok(Signed(FieldValue(opr, ctxreg, 0), opr.Field(1), c))
              && EffectiveOf(opr) == Ok(Effective(Some(opr.Field(0)), None, SignedVal(opr.Field(1), c)))
              && EffectiveValue(Effective(Some(opr.Field(0)), None, SignedVal(opr.Field(1), c)), ctxreg)
                 == Wrap(FieldValue(opr, ctxreg, 0) + SignedVal(opr.Field(1), c))
  {
    hide RegConVal, Hex.ParseDec, Hex.ParseHex, Wrap, Scale, Disp, Signed, SignedVal;
    assert CalcAddr(opr, ctxreg) == (var c :- Disp(opr.Field(2)); Ok(Signed(FieldValue(opr, ctxreg, 0), opr.Field(1), c))) by {
      hide EffectiveOf, EffectiveValue;
    }
    assert EffectiveOf(opr) == (var d :- SignedDisp(opr.Field(1), opr.Field(2)); Ok(Effective(Some(opr.Field(0)), None, d))) by {
      hide CalcAddr, EffectiveValue;
    }
  }

  lemma EffectiveScaledDisp(opr: Core.Operand, ctxreg: seq<u32>)
    requires |ctxreg| == 8 && opr.tag == 6 && SignsKnown(opr)
    ensures CalcAddr(opr, ctxreg).Ok? <==> EffectiveOf(opr).Ok?
    ensures EffectiveOf(opr).Ok? ==> CalcAddr(opr, ctxreg).value == EffectiveValue(EffectiveOf(opr).value, ctxreg)
  {
    hide RegConVal, Hex.ParseDec, Hex.ParseHex, Wrap, Scale, Disp;
  }

  lemma EffectiveScaled(opr: Core.Operand, ctxreg: seq<u32>)
    requires |ctxreg| == 8 && opr.tag in {5, 3}
    ensures CalcAddr(opr, ctxreg).Ok? <==> EffectiveOf(opr).Ok?
    ensures EffectiveOf(opr).Ok? ==> CalcAddr(opr, ctxreg).value == EffectiveValue(EffectiveOf(opr).value, ctxreg)
  {
    hide RegConVal, Hex.ParseDec, Hex.ParseHex, Wrap, Scale, Signed;
  }

  lemma EffectivePlain(opr: Core.Operand, ctxreg: seq<u32>)
    requires |ctxreg| == 8 && opr.tag in {1, 2}
    ensures CalcAddr(opr, ctxreg).Ok? <==> EffectiveOf(opr).Ok?
    ensures EffectiveOf(opr).Ok? ==> CalcAddr(opr, ctxreg).value == EffectiveValue(EffectiveOf(opr).value, ctxreg)
  {
    hide RegConVal, Hex.ParseDec, Hex.ParseHex, Scale, Signed;
  }
}
