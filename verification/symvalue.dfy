/** Values and operations of the symbolic engine (mg-symengine.cpp:16-209, 305-374).
    Every `new Value` of the source becomes an allocation in an id-indexed heap whose
    counter plays the role of the static `Value::idseed`. */
module SymValue {
  import opened Wrappers
  import opened Word
  import RangeMap
  import Hex

  /** A value's id; 0 plays the part of the NULL pointer, since ids start at 1. */
  type Ref = nat

  const NULL: Ref := 0

  datatype Kind = Symbol | Concrete | Hybrid

  /** `Operation`: a tag and the operand slots of `val[0..2]` that were filled, in order;
      the second may be NULL when the first is a SYMBOL (see `BuildOp2NullSecond`). */
  datatype Operation = Operation(tag: string, args: seq<Ref>)

  /** `Value`. `conval` is the number its hex text spells, `bits` is `bsconval`,
      `lo`/`hi` are `brange.first`/`brange.second` (a default-constructed `pair`, so
      0 and 0 until assigned) and `childs` is the bit-range map of a hybrid value.
      Every CONCRETE leaf gets its text as soon as it is made, so `conval` never has
      to stand for the empty string. */
  datatype Value = Value(kind: Kind, opr: Option<Operation>, conval: nat, bits: u32,
                         lo: int, hi: int, childs: RangeMap.Map, len: int)

  datatype Heap = Heap(vals: map<Ref, Value>, seed: nat)

  /** Every stored id was handed out by the counter: ids 1..seed, none above. */
  ghost predicate HeapValid(h: Heap) {
    forall r | r in h.vals :: 1 <= r <= h.seed
  }

  /** Operands were built before the node using them (or are NULL), so the value
      graph is a DAG. */
  ghost predicate Acyclic(h: Heap) {
    forall r | r in h.vals && h.vals[r].opr.Some? ::
      forall i | 0 <= i < |h.vals[r].opr.value.args| :: h.vals[r].opr.value.args[i] < r
  }

  /** Every operand of a stored node is NULL or a stored value. */
  ghost predicate Closed(h: Heap) {
    forall r | r in h.vals && h.vals[r].opr.Some? ::
      forall i | 0 <= i < |h.vals[r].opr.value.args| ::
        h.vals[r].opr.value.args[i] == NULL || h.vals[r].opr.value.args[i] in h.vals
  }

  /** `h2` only adds values to `h1`: nothing already allocated changed. */
  ghost predicate Grows(h1: Heap, h2: Heap) {
    && h1.seed <= h2.seed
    && (forall r | r in h1.vals :: r in h2.vals && h2.vals[r] == h1.vals[r])
  }

  lemma GrowsTrans(h1: Heap, h2: Heap, h3: Heap)
    requires Grows(h1, h2) && Grows(h2, h3)
    ensures Grows(h1, h3)
  {}

  const EmptyHeap: Heap := Heap(map[], 0)

  /** `new Value(...)`: the value gets id `++idseed`. */
  function Alloc(h: Heap, v: Value): (res: (Heap, Ref))
    ensures res.1 == h.seed + 1 && res.0.seed == res.1
    ensures res.0.vals == h.vals[res.1 := v]
    ensures HeapValid(h) ==> res.1 !in h.vals && forall r | r in h.vals :: r < res.1
    ensures HeapValid(h) ==> Grows(h, res.0)
  {
    (Heap(h.vals[h.seed + 1 := v], h.seed + 1), h.seed + 1)
  }

  lemma AllocValid(h: Heap, v: Value)
    requires HeapValid(h) && Acyclic(h)
    requires v.opr.Some? ==> forall i | 0 <= i < |v.opr.value.args| :: v.opr.value.args[i] <= h.seed
    ensures HeapValid(Alloc(h, v).0) && Acyclic(Alloc(h, v).0)
  {}

  /** `Value(SYMBOL)` / `Value(SYMBOL, l)`. */
  function SymbolValue(len: int): Value {
    Value(Symbol, None, 0, 0, 0, 0, [], len)
  }

  /** `Value(CONCRETE, con)`: bits from the text's value, range [0,31], width 32. */
  function ConcreteLit(n: nat): Value {
    Value(Concrete, None, n, Low32(n), 0, 31, [], 32)
  }

  /** `Value(CONCRETE, bitset)`. */
  function ConcreteBits(bs: u32): Value {
    Value(Concrete, None, 0, bs, 0, 0, [], 32)
  }

  /** `Value(vty)`. */
  function Blank(k: Kind): Value {
    Value(k, None, 0, 0, 0, 0, [], 32)
  }

  /** `new Value(CONCRETE, text)`: `stoul` may throw. */
  function NewConcrete(h: Heap, text: string): (res: Result<(Heap, Ref)>)
    ensures res.Ok? <==> Hex.ParseHex(text).Some?
    ensures res.Ok? ==> res.value.1 == h.seed + 1 &&
                        res.value.0.vals == h.vals[h.seed + 1 := ConcreteLit(Hex.ParseHex(text).value)]
  {
    var n := Hex.ParseHex(text);
    if n.None? then Abort("stoul: no hex digits")
    else Ok(Alloc(h, ConcreteLit(n.value)))
  }

  function KindOf(h: Heap, r: Ref): Result<Kind> {
    if r in h.vals then Ok(h.vals[r].kind) else Abort("NULL value dereferenced")
  }

  /** What `buildop1/2/3` learn by asking the operands' kinds left to right and
      stopping at the first SYMBOL (`v1->isSymbol() || v2->isSymbol() ...`): the kind
      of the result, or None when a NULL operand is dereferenced first. An operand
      after the first SYMBOL is never looked at, so it may be NULL. */
  function Inspect(h: Heap, args: seq<Ref>): (k: Option<Kind>)
    ensures k.Some? ==> k.value != Hybrid
    ensures k == Some(Symbol) <==>
              exists i :: 0 <= i < |args| && args[i] in h.vals && h.vals[args[i]].kind == Symbol &&
                          forall j :: 0 <= j < i ==> args[j] in h.vals
    ensures k == Some(Concrete) <==>
              forall i :: 0 <= i < |args| ==> args[i] in h.vals && h.vals[args[i]].kind != Symbol
  {
    if |args| == 0 then Some(Concrete)
    else if args[0] !in h.vals then None
    else if h.vals[args[0]].kind == Symbol then Some(Symbol)
    else
      var k := Inspect(h, args[1..]);
      assert forall i :: 1 <= i < |args| ==> args[i] == args[1..][i - 1];
      if k == Some(Symbol) then
        var i :| 0 <= i < |args[1..]| && args[1..][i] in h.vals && h.vals[args[1..][i]].kind == Symbol &&
                 forall j :: 0 <= j < i ==> args[1..][j] in h.vals;
        assert args[i + 1] == args[1..][i];
        k
      else k
  }

  function Computed(k: Kind, op: Operation): Value {
    Value(k, Some(op), 0, 0, 0, 0, [], 32)
  }

  /** `buildop1/2/3`, uniformly: a fresh computed node over the operands, which are
      left untouched. */
  function BuildOp(h: Heap, tag: string, args: seq<Ref>): (res: Result<(Heap, Ref)>)
    ensures res.Ok? <==> Inspect(h, args).Some?
    ensures res.Ok? ==>
      var (h', r) := res.value;
      && r == h.seed + 1 && h'.seed == r && r in h'.vals
      && h'.vals == h.vals[r := h'.vals[r]]
      && h'.vals[r].opr == Some(Operation(tag, args))
      && (h'.vals[r].kind == Symbol <==> exists i :: 0 <= i < |args| && args[i] in h.vals && h.vals[args[i]].kind == Symbol)
      && h'.vals[r].kind != Hybrid
  {
    var k := Inspect(h, args);
    if k.None? then Abort("NULL operand dereferenced")
    else Ok(Alloc(h, Computed(k.value, Operation(tag, args))))
  }

  /** `buildop1`: the operand is always dereferenced. */
  function BuildOp1(h: Heap, tag: string, a: Ref): (res: Result<(Heap, Ref)>)
    ensures res.Ok? <==> a in h.vals
    ensures res.Ok? ==> res.value == (Heap(h.vals[h.seed + 1 := Computed(Kind1(h, a), Operation(tag, [a]))],
                                           h.seed + 1), h.seed + 1)
  {
    if a !in h.vals then Abort("NULL operand dereferenced")
    else Ok(Alloc(h, Computed(Kind1(h, a), Operation(tag, [a]))))
  }

  /** The kind `buildop1` gives its result: SYMBOL iff the operand is one. */
  function Kind1(h: Heap, a: Ref): Kind {
    if a in h.vals && h.vals[a].kind == Symbol then Symbol else Concrete
  }

  /** `buildop2`: the second operand is dereferenced only when the first is not a
      SYMBOL. */
  function BuildOp2(h: Heap, tag: string, a: Ref, b: Ref): (res: Result<(Heap, Ref)>)
    ensures res.Ok? <==> a in h.vals && (h.vals[a].kind == Symbol || b in h.vals)
    ensures res.Ok? ==> res.value == (Heap(h.vals[h.seed + 1 := Computed(Kind2(h, a, b), Operation(tag, [a, b]))],
                                           h.seed + 1), h.seed + 1)
  {
    if a !in h.vals then Abort("NULL operand dereferenced")
    else if h.vals[a].kind != Symbol && b !in h.vals then Abort("NULL operand dereferenced")
    else Ok(Alloc(h, Computed(Kind2(h, a, b), Operation(tag, [a, b]))))
  }

  /** The kind `buildop2` gives its result: SYMBOL iff either operand is one. */
  function Kind2(h: Heap, a: Ref, b: Ref): Kind {
    if (a in h.vals && h.vals[a].kind == Symbol) || (b in h.vals && h.vals[b].kind == Symbol)
    then Symbol else Concrete
  }

  function BuildOp3(h: Heap, tag: string, a: Ref, b: Ref, c: Ref): Result<(Heap, Ref)> {
    BuildOp(h, tag, [a, b, c])
  }

  /** `r` is a computed node with operation `tag` over `args`. */
  predicate Node(h: Heap, r: Ref, tag: string, args: seq<Ref>) {
    r in h.vals && h.vals[r].opr == Some(Operation(tag, args))
  }

  /** `r` is the literal `Value(CONCRETE, text)` for a text spelling `n`. */
  predicate Lit(h: Heap, r: Ref, n: nat) {
    r in h.vals && h.vals[r] == ConcreteLit(n)
  }

  /** The recurring pair `v1 = new Value(CONCRETE, n); buildop2(tag, x, v1)`: the
      literal gets the next id and the node the one after. */
  function WithConst(h: Heap, tag: string, x: Ref, n: nat): (res: Result<(Heap, Ref)>)
    requires x <= h.seed
    ensures res.Ok? <==> x in h.vals
    ensures res.Ok? ==> var (h', r) := res.value;
              && r == h.seed + 2 && h'.seed == h.seed + 2
              && Lit(h', h.seed + 1, n) && Node(h', r, tag, [x, h.seed + 1]) && h'.vals[r].kind == Kind1(h, x)
              && (forall y | y in h.vals && y <= h.seed :: y in h'.vals && h'.vals[y] == h.vals[y])
  {
    var (h1, c) := Alloc(h, ConcreteLit(n));
    BuildOp2(h1, tag, x, c)
  }

  /** What `WithConst` leaves behind: the literal, the node over `x` and the literal,
      of the kind of `x`, and every older value as it was. */
  lemma WithConstShape(h: Heap, tag: string, x: Ref, n: nat)
    requires HeapValid(h) && x <= h.seed
    requires WithConst(h, tag, x, n).Ok?
    ensures var (h', r) := WithConst(h, tag, x, n).value;
            && Lit(h', h.seed + 1, n) && Node(h', r, tag, [x, h.seed + 1])
            && h'.vals[r].kind == Kind1(h, x)
            && HeapValid(h') && Grows(h, h')
  {}

  /** A heap that is valid, acyclic and closed stays so under `WithConst`. */
  lemma WithConstWf(h: Heap, tag: string, x: Ref, n: nat)
    requires HeapValid(h) && Acyclic(h) && Closed(h) && x <= h.seed
    requires WithConst(h, tag, x, n).Ok?
    ensures var h' := WithConst(h, tag, x, n).value.0;
            HeapValid(h') && Acyclic(h') && Closed(h')
  {
    var h' := WithConst(h, tag, x, n).value.0;
    var s := h.seed;
    forall r | r in h'.vals && h'.vals[r].opr.Some?
      ensures forall i | 0 <= i < |h'.vals[r].opr.value.args| :: h'.vals[r].opr.value.args[i] < r
      ensures forall i | 0 <= i < |h'.vals[r].opr.value.args| ::
                h'.vals[r].opr.value.args[i] == NULL || h'.vals[r].opr.value.args[i] in h'.vals
    {
      if r == s + 2 {
        assert h'.vals[r].opr.value.args == [x, s + 1];
      } else {
        assert r in h.vals && h'.vals[r] == h.vals[r];
      }
    }
  }

  /** With every operand present a node is always built: it is fresh, it is a SYMBOL
      exactly when some operand is one and a CONCRETE otherwise (a HYBRID operand
      counts as not SYMBOL), and no existing value changes. */
  lemma BuildOpFresh(h: Heap, tag: string, args: seq<Ref>)
    requires HeapValid(h) && Acyclic(h)
    requires forall i :: 0 <= i < |args| ==> args[i] in h.vals
    ensures BuildOp(h, tag, args).Ok?
    ensures var (h', r) := BuildOp(h, tag, args).value;
            && r !in h.vals && HeapValid(h') && Acyclic(h') && Grows(h, h')
            && h'.vals[r].kind == (if exists i :: 0 <= i < |args| && h.vals[args[i]].kind == Symbol
                                   then Symbol else Concrete)
  {
    var k := Inspect(h, args);
    AllocValid(h, Computed(k.value, Operation(tag, args)));
  }

  /** The one- and two-operand builders are the general one at those arities. */
  lemma BuildOpArities(h: Heap, tag: string, a: Ref, b: Ref)
    ensures BuildOp1(h, tag, a) == BuildOp(h, tag, [a])
    ensures BuildOp2(h, tag, a, b) == BuildOp(h, tag, [a, b])
  {
    assert [a][0] == a && [a][1..] == [];
    assert Inspect(h, [a]) == (if a !in h.vals then None else Some(Kind1(h, a)));
    assert [a, b][0] == a && [a, b][1..] == [b] && [b][0] == b && [b][1..] == [];
    var kb := Inspect(h, [b]);
    assert kb == (if b !in h.vals then None else Some(Kind1(h, b)));
    var k := Inspect(h, [a, b]);
    if a in h.vals && h.vals[a].kind != Symbol {
      assert k == kb;
    }
  }

  /** A SYMBOL first operand is the only way a NULL second operand gets into a node. */
  lemma BuildOp2NullSecond(h: Heap, tag: string, a: Ref)
    requires a in h.vals && NULL !in h.vals
    ensures BuildOp2(h, tag, a, NULL).Ok? <==> h.vals[a].kind == Symbol
  {
    if h.vals[a].kind != Symbol {
      assert [a, NULL][1] !in h.vals;
    } else {
      assert [a, NULL][0] == a;
    }
  }

  /** `hasVal`: does the value have a child at exactly [start,end]? */
  function HasVal(h: Heap, v: Ref, start: int, end: int): (res: Result<bool>)
    ensures res.Ok? <==> v in h.vals
    ensures res.Ok? ==> (res.value <==> RangeMap.Range(start, end) in RangeMap.Keys(h.vals[v].childs))
  {
    if v !in h.vals then Abort("NULL value dereferenced")
    else Ok(RangeMap.Get(h.vals[v].childs, RangeMap.Range(start, end)).Some?)
  }

  /** `readVal`: that child, or NULL. */
  function ReadVal(h: Heap, v: Ref, start: int, end: int): (res: Result<Ref>)
    ensures res.Ok? <==> v in h.vals
    ensures res.Ok? && RangeMap.Range(start, end) in RangeMap.Keys(h.vals[v].childs) ==>
              RangeMap.Entry(RangeMap.Range(start, end), res.value) in h.vals[v].childs
    ensures res.Ok? && RangeMap.Range(start, end) !in RangeMap.Keys(h.vals[v].childs) ==> res.value == NULL
  {
    if v !in h.vals then Abort("NULL value dereferenced")
    else
      var c := RangeMap.Get(h.vals[v].childs, RangeMap.Range(start, end));
      Ok(if c.Some? then c.value else NULL)
  }

  /** Bits `i..hi` of `bs` read as a number, bit `i` least significant. */
  function BitsFrom(bs: nat, i: int, hi: int): nat
    requires 0 <= i && hi <= 31
    decreases hi - i
  {
    if i > hi then 0 else (if NatBit(bs, i) then 1 else 0) + 2 * BitsFrom(bs, i + 1, hi)
  }

  /** `bs2str`: the number formed by bits `lo..hi` (the text is its hex spelling).
      Indexing the bitset outside [0,31] is undefined. */
  function Bs2Str(bs: nat, lo: int, hi: int): (res: Result<nat>)
    ensures lo > hi ==> res == Ok(0)
    ensures lo <= hi ==> (res.Ok? <==> 0 <= lo && hi <= 31)
  {
    if lo > hi then Ok(0)
    else if lo < 0 || hi > 31 then Abort("bitset index out of range")
    else Ok(BitsFrom(bs, lo, hi))
  }

  /** The number `bs2str` renders keeps exactly the selected bits, moved down to bit 0. */
  lemma {:induction false} BitsFromBits(bs: nat, i: int, hi: int)
    requires 0 <= i <= hi + 1 && hi <= 31
    ensures BitsFrom(bs, i, hi) < Pow2(hi - i + 1)
    ensures forall k: nat :: k <= hi - i ==> (NatBit(BitsFrom(bs, i, hi), k) <==> NatBit(bs, i + k))
    ensures forall k: nat :: k > hi - i ==> !NatBit(BitsFrom(bs, i, hi), k)
    decreases hi - i
  {
    var n := BitsFrom(bs, i, hi);
    if i > hi {
      forall k: nat ensures !NatBit(0, k) { ZeroNoBits(k); }
    } else {
      BitsFromBits(bs, i + 1, hi);
      var rest := BitsFrom(bs, i + 1, hi);
      var b := if NatBit(bs, i) then 1 else 0;
      assert n == b + 2 * rest;
      assert n / 2 == rest;
      forall k: nat | k >= 1
        ensures NatBit(n, k) <==> NatBit(rest, k - 1)
      {}
    }
  }

  lemma ZeroNoBits(k: nat)
    ensures !NatBit(0, k)
  {
    if k > 0 { ZeroNoBits(k - 1); }
  }

  /** `writeVal(from, to, start, end)`: a fresh HYBRID is allocated first, whatever
      happens next. For a HYBRID `to` the child at [start,end] is re-pointed to `from`
      (`to` is returned, mutated); for a SYMBOL `from` and a CONCRETE `to` the fresh
      hybrid is split by `SplitConcrete`; otherwise NULL. */
  function WriteVal(h: Heap, from: Ref, to: Ref, start: int, end: int): (res: Result<(Heap, Ref)>)
  {
    var (h1, nv) := Alloc(h, Blank(Hybrid));
    if to !in h1.vals then Abort("NULL value dereferenced")
    else
      var tv := h1.vals[to];
      var key := RangeMap.Range(start, end);
      if tv.kind == Hybrid then
        if key in RangeMap.Keys(tv.childs) then
          Ok((h1.(vals := h1.vals[to := tv.(childs := RangeMap.Replace(tv.childs, key, from))]), to))
        else Ok((h1, NULL))
      else if from !in h1.vals then Abort("NULL value dereferenced")
      else if h1.vals[from].kind == Symbol && tv.kind == Concrete then
        SplitConcrete(h1, nv, from, tv, start, end)
      else Ok((h1, NULL))
  }

  /** The three children a symbolic write makes of a concrete word [s1,e1]:
      [s1,start-1] and [end+1,e1] keep the word's bits, [start,end] is `from`. */
  function SplitConcrete(h1: Heap, nv: Ref, from: Ref, tv: Value, start: int, end: int): (res: Result<(Heap, Ref)>)
    requires nv <= h1.seed
  {
    if Bs2Str(tv.bits, tv.lo, start - 1).Abort? || Bs2Str(tv.bits, end + 1, tv.hi).Abort? then
      Abort("bitset index out of range")
    else
      // the two side pieces are the next two allocations
      Ok((Heap(SplitVals(h1, nv, from, tv.bits, tv.lo, start, end, tv.hi), h1.seed + 2), nv))
  }

  /** A side piece: a copy of the word's bits restricted to [lo,hi], holding their number. */
  function SidePiece(bs: u32, lo: int, hi: int): Value
  {
    var c := Bs2Str(bs, lo, hi);
    ConcreteBits(bs).(lo := lo, hi := hi, conval := if c.Ok? then c.value else 0)
  }

  /** The heap after a split of [s1,e1] at [start,end] into the fresh hybrid `nv`. */
  function SplitVals(h1: Heap, nv: Ref, from: Ref, bs: u32, s1: int, start: int, end: int, e1: int): map<Ref, Value>
  {
    SidePieces(h1, bs, s1, start, end, e1)[nv := Blank(Hybrid).(childs := SplitChildren(h1.seed, from, s1, start, end, e1))]
  }

  /** The two side pieces as the next two ids after `h1`'s counter. */
  function SidePieces(h1: Heap, bs: u32, s1: int, start: int, end: int, e1: int): map<Ref, Value> {
    h1.vals[h1.seed + 1 := SidePiece(bs, s1, start - 1)][h1.seed + 2 := SidePiece(bs, end + 1, e1)]
  }

  /** The split's children: the low side, `from`, the high side. */
  function SplitChildren(s: nat, from: Ref, s1: int, start: int, end: int, e1: int): RangeMap.Map {
    ThreeChildren(RangeMap.Range(s1, start - 1), s + 1, RangeMap.Range(start, end), from,
                  RangeMap.Range(end + 1, e1), s + 2)
  }

  /** The split adds the two side pieces as the next two ids and turns `nv` into a
      hybrid whose three children are the low side, `from` and the high side. */
  lemma SplitValsShape(h1: Heap, nv: Ref, from: Ref, bs: u32, s1: int, start: int, end: int, e1: int)
    requires nv <= h1.seed
    ensures var r := SplitVals(h1, nv, from, bs, s1, start, end, e1);
            && (forall x :: x in r <==> x in h1.vals || x == nv || x == h1.seed + 1 || x == h1.seed + 2)
            && (forall x | x in h1.vals && x != nv && x != h1.seed + 1 && x != h1.seed + 2 :: r[x] == h1.vals[x])
            && r[h1.seed + 1] == SidePiece(bs, s1, start - 1) && r[h1.seed + 2] == SidePiece(bs, end + 1, e1)
    ensures var hv := SplitVals(h1, nv, from, bs, s1, start, end, e1)[nv];
            var k1 := RangeMap.Range(s1, start - 1);
            var k2 := RangeMap.Range(start, end);
            var k3 := RangeMap.Range(end + 1, e1);
            && hv.kind == Hybrid && hv.opr.None? && RangeMap.Sorted(hv.childs)
            && RangeMap.Keys(hv.childs) == {k1, k2, k3}
            && RangeMap.Get(hv.childs, k1) == Some(h1.seed + 1)
            && (k2 != k1 ==> RangeMap.Get(hv.childs, k2) == Some(from))
            && (k3 != k1 && k3 != k2 ==> RangeMap.Get(hv.childs, k3) == Some(h1.seed + 2))
  {
    SplitValsDomain(h1, nv, from, bs, s1, start, end, e1);
    assert SplitVals(h1, nv, from, bs, s1, start, end, e1)[nv].childs == SplitChildren(h1.seed, from, s1, start, end, e1);
  }

  lemma SplitValsDomain(h1: Heap, nv: Ref, from: Ref, bs: u32, s1: int, start: int, end: int, e1: int)
    requires nv <= h1.seed
    ensures var r := SplitVals(h1, nv, from, bs, s1, start, end, e1);
            && (forall x :: x in r <==> x in h1.vals || x == nv || x == h1.seed + 1 || x == h1.seed + 2)
            && (forall x | x in h1.vals && x != nv && x != h1.seed + 1 && x != h1.seed + 2 :: r[x] == h1.vals[x])
            && r[h1.seed + 1] == SidePiece(bs, s1, start - 1) && r[h1.seed + 2] == SidePiece(bs, end + 1, e1)
  {
    var m := SidePieces(h1, bs, s1, start, end, e1);
    var hv := Blank(Hybrid).(childs := SplitChildren(h1.seed, from, s1, start, end, e1));
    assert SplitVals(h1, nv, from, bs, s1, start, end, e1) == m[nv := hv];
    assert m == h1.vals[h1.seed + 1 := SidePiece(bs, s1, start - 1)][h1.seed + 2 := SidePiece(bs, end + 1, e1)];
  }

  /** The children map built by three successive inserts. */
  function ThreeChildren(k1: RangeMap.Range, v1: nat, k2: RangeMap.Range, v2: nat,
                         k3: RangeMap.Range, v3: nat): (m: RangeMap.Map)
    ensures RangeMap.Sorted(m)
    ensures RangeMap.Keys(m) == {k1, k2, k3}
    ensures RangeMap.Get(m, k1) == Some(v1)
    ensures k2 != k1 ==> RangeMap.Get(m, k2) == Some(v2)
    ensures k3 != k1 && k3 != k2 ==> RangeMap.Get(m, k3) == Some(v3)
  {
    var es := [RangeMap.Entry(k1, v1), RangeMap.Entry(k2, v2), RangeMap.Entry(k3, v3)];
    var m := RangeMap.InsertAll([], es);
    ThreeInserts(k1, v1, k2, v2, k3, v3);
    m
  }

  lemma ThreeInserts(k1: RangeMap.Range, v1: nat, k2: RangeMap.Range, v2: nat,
                     k3: RangeMap.Range, v3: nat)
    ensures var m := RangeMap.InsertAll([], [RangeMap.Entry(k1, v1), RangeMap.Entry(k2, v2), RangeMap.Entry(k3, v3)]);
            && RangeMap.Sorted(m)
            && RangeMap.Keys(m) == {k1, k2, k3}
            && RangeMap.Get(m, k1) == Some(v1)
            && (k2 != k1 ==> RangeMap.Get(m, k2) == Some(v2))
            && (k3 != k1 && k3 != k2 ==> RangeMap.Get(m, k3) == Some(v3))
  {
    var es := [RangeMap.Entry(k1, v1), RangeMap.Entry(k2, v2), RangeMap.Entry(k3, v3)];
    var m1 := RangeMap.Insert([], k1, v1);
    var m2 := RangeMap.Insert(m1, k2, v2);
    var m3 := RangeMap.Insert(m2, k3, v3);
    assert RangeMap.Sorted([]);
    assert RangeMap.Keys([]) == {};
    assert RangeMap.InsertAll([], es) == RangeMap.InsertAll(m1, es[1..]);
    assert RangeMap.InsertAll(m1, es[1..]) == RangeMap.InsertAll(m2, es[2..]);
    assert RangeMap.InsertAll(m2, es[2..]) == RangeMap.InsertAll(m3, es[3..]);
    assert es[3..] == [];
  }

  /** Writing a symbolic byte into bits [8,15] of a whole-word literal splits the word
      into a hybrid of exactly three pieces covering [0,31]: the low byte and the upper
      half keep the literal's bits, the middle is the symbol itself. */
  lemma WriteValSplitsLiteral(h: Heap, from: Ref, to: Ref)
    requires HeapValid(h)
    requires from in h.vals && h.vals[from].kind == Symbol
    requires to in h.vals && h.vals[to] == ConcreteLit(h.vals[to].conval)
    ensures WriteVal(h, from, to, 8, 15).Ok?
    ensures var h' := WriteVal(h, from, to, 8, 15).value.0;
            var r := WriteVal(h, from, to, 8, 15).value.1;
            var hv := h'.vals[r];
            && r == h.seed + 1 && r in h'.vals
            && hv.kind == Hybrid && hv.opr.None?
            && RangeMap.Keys(hv.childs) ==
                 {RangeMap.Range(0, 7), RangeMap.Range(8, 15), RangeMap.Range(16, 31)}
            && RangeMap.Get(hv.childs, RangeMap.Range(8, 15)) == Some(from)
            && LowPiece(h', hv) == BitsFrom(h.vals[to].bits, 0, 7)
            && HighPiece(h', hv) == BitsFrom(h.vals[to].bits, 16, 31)
  {
    assert WriteVal(h, from, to, 8, 15) == Ok((ByteSplit(h, from, h.vals[to].bits), h.seed + 1)) by {
      WriteValOfLiteral(h, from, to);
    }
    ByteSplitShape(h, from, h.vals[to].bits);
  }

  /** The split only adds values: the heap stays valid and grows. */
  lemma WriteValLiteralGrows(h: Heap, from: Ref, to: Ref)
    requires HeapValid(h)
    requires from in h.vals && h.vals[from].kind == Symbol
    requires to in h.vals && h.vals[to] == ConcreteLit(h.vals[to].conval)
    ensures WriteVal(h, from, to, 8, 15).Ok?
    ensures var h' := WriteVal(h, from, to, 8, 15).value.0;
            HeapValid(h') && Grows(h, h')
  {
    assert WriteVal(h, from, to, 8, 15) == Ok((ByteSplit(h, from, h.vals[to].bits), h.seed + 1)) by {
      WriteValOfLiteral(h, from, to);
    }
    ByteSplitGrows(h, from, h.vals[to].bits);
  }

  /** The heap a symbolic write into bits [8,15] of the word `bs` leaves behind. */
  function ByteSplit(h: Heap, from: Ref, bs: u32): Heap {
    Heap(SplitVals(Alloc(h, Blank(Hybrid)).0, h.seed + 1, from, bs, 0, 8, 15, 31), h.seed + 3)
  }

  lemma ByteSplitShape(h: Heap, from: Ref, bs: u32)
    requires HeapValid(h)
    ensures var h' := ByteSplit(h, from, bs);
            var r := h.seed + 1;
            var hv := h'.vals[r];
            && r in h'.vals
            && hv.kind == Hybrid && hv.opr.None?
            && RangeMap.Keys(hv.childs) ==
                 {RangeMap.Range(0, 7), RangeMap.Range(8, 15), RangeMap.Range(16, 31)}
            && RangeMap.Get(hv.childs, RangeMap.Range(8, 15)) == Some(from)
            && LowPiece(h', hv) == BitsFrom(bs, 0, 7)
            && HighPiece(h', hv) == BitsFrom(bs, 16, 31)
  {
    var nv := h.seed + 1;
    var h1 := Alloc(h, Blank(Hybrid)).0;
    var vals := SplitVals(h1, nv, from, bs, 0, 8, 15, 31);
    SplitValsShape(h1, nv, from, bs, 0, 8, 15, 31);
    var hv := vals[nv];
    assert LowPiece(Heap(vals, h.seed + 3), hv) == vals[nv + 1].conval;
    assert HighPiece(Heap(vals, h.seed + 3), hv) == vals[nv + 2].conval;
  }

  lemma ByteSplitGrows(h: Heap, from: Ref, bs: u32)
    requires HeapValid(h)
    ensures HeapValid(ByteSplit(h, from, bs)) && Grows(h, ByteSplit(h, from, bs))
  {
    var h1 := Alloc(h, Blank(Hybrid)).0;
    SplitValsShape(h1, h.seed + 1, from, bs, 0, 8, 15, 31);
  }

  lemma WriteValOfLiteral(h: Heap, from: Ref, to: Ref)
    requires HeapValid(h)
    requires from in h.vals && h.vals[from].kind == Symbol
    requires to in h.vals && h.vals[to] == ConcreteLit(h.vals[to].conval)
    ensures WriteVal(h, from, to, 8, 15) == Ok((ByteSplit(h, from, h.vals[to].bits), h.seed + 1))
  {
    var h1 := Alloc(h, Blank(Hybrid)).0;
    var tv := h.vals[to];
    assert h1.vals[to] == tv && h1.vals[from] == h.vals[from];
    assert WriteVal(h, from, to, 8, 15) == SplitConcrete(h1, h.seed + 1, from, tv, 8, 15);
  }

  /** The stored number of the [0,7] piece of a hybrid, 0 if there is none. */
  function LowPiece(h: Heap, hv: Value): nat {
    var c := RangeMap.Get(hv.childs, RangeMap.Range(0, 7));
    if c.Some? && c.value in h.vals then h.vals[c.value].conval else 0
  }

  /** The stored number of the [16,31] piece of a hybrid, 0 if there is none. */
  function HighPiece(h: Heap, hv: Value): nat {
    var c := RangeMap.Get(hv.childs, RangeMap.Range(16, 31));
    if c.Some? && c.value in h.vals then h.vals[c.value].conval else 0
  }

  // ---------------------------------------------------------------- children stay bounded

  /** Every child a hybrid value holds was handed out already: a pointer the
      program holds always points to a value that exists. */
  ghost predicate ChildBounded(h: Heap) {
    forall r | r in h.vals :: RangeMap.ValsBelow(h.vals[r].childs, h.seed)
  }

  lemma AllocBounded(h: Heap, v: Value)
    requires ChildBounded(h)
    requires RangeMap.ValsBelow(v.childs, h.seed + 1)
    ensures ChildBounded(Alloc(h, v).0)
  {}

  lemma BuildOp2Bounded(h: Heap, tag: string, a: Ref, b: Ref)
    requires ChildBounded(h) && BuildOp2(h, tag, a, b).Ok?
    ensures ChildBounded(BuildOp2(h, tag, a, b).value.0)
  {
    AllocBounded(h, Computed(Kind2(h, a, b), Operation(tag, [a, b])));
  }

  lemma BuildOp1Bounded(h: Heap, tag: string, a: Ref)
    requires ChildBounded(h) && BuildOp1(h, tag, a).Ok?
    ensures ChildBounded(BuildOp1(h, tag, a).value.0)
  {
    AllocBounded(h, Computed(Kind1(h, a), Operation(tag, [a])));
  }

  lemma WithConstBounded(h: Heap, tag: string, x: Ref, n: nat)
    requires ChildBounded(h) && x <= h.seed && WithConst(h, tag, x, n).Ok?
    ensures ChildBounded(WithConst(h, tag, x, n).value.0)
  {
    var (h1, c) := Alloc(h, ConcreteLit(n));
    AllocBounded(h, ConcreteLit(n));
    BuildOp2Bounded(h1, tag, x, c);
  }

  /** `writeVal` keeps every child bounded and returns a value that exists or NULL. */
  lemma WriteValBounded(h: Heap, from: Ref, to: Ref, start: int, end: int)
    requires ChildBounded(h) && from <= h.seed && to <= h.seed
    requires WriteVal(h, from, to, start, end).Ok?
    ensures var (h', r) := WriteVal(h, from, to, start, end).value;
            h.seed <= h'.seed && r <= h'.seed && ChildBounded(h')
  {
    var (h1, nv) := Alloc(h, Blank(Hybrid));
    AllocBounded(h, Blank(Hybrid));
    var tv := h1.vals[to];
    var key := RangeMap.Range(start, end);
    if tv.kind == Hybrid {
      if key in RangeMap.Keys(tv.childs) {
        ReplaceBounded(h1, to, key, from);
      }
    } else if h1.vals[from].kind == Symbol && tv.kind == Concrete {
      assert WriteVal(h, from, to, start, end) == SplitConcrete(h1, nv, from, tv, start, end);
      SplitBounded(h1, nv, from, tv.bits, tv.lo, start, end, tv.hi);
    }
  }

  /** Re-pointing a child of a stored hybrid to an existing value keeps children bounded. */
  lemma ReplaceBounded(h: Heap, to: Ref, key: RangeMap.Range, from: Ref)
    requires ChildBounded(h) && to in h.vals && from <= h.seed
    ensures var tv := h.vals[to];
            ChildBounded(h.(vals := h.vals[to := tv.(childs := RangeMap.Replace(tv.childs, key, from))]))
  {
    var tv := h.vals[to];
    var h' := h.(vals := h.vals[to := tv.(childs := RangeMap.Replace(tv.childs, key, from))]);
    assert RangeMap.ValsBelow(h'.vals[to].childs, h'.seed);
  }

  /** The split's hybrid holds the two fresh side pieces and `from`, all bounded. */
  lemma SplitBounded(h1: Heap, nv: Ref, from: Ref, bs: u32, s1: int, start: int, end: int, e1: int)
    requires ChildBounded(h1) && nv <= h1.seed && from <= h1.seed
    ensures ChildBounded(Heap(SplitVals(h1, nv, from, bs, s1, start, end, e1), h1.seed + 2))
  {
    var s := h1.seed;
    SidePiecesBounded(h1, bs, s1, start, end, e1);
    ThreeChildrenBounded(RangeMap.Range(s1, start - 1), s + 1, RangeMap.Range(start, end), from,
                         RangeMap.Range(end + 1, e1), s + 2, s + 2);
    var ch := SplitChildren(s, from, s1, start, end, e1);
    PutBounded(SidePieces(h1, bs, s1, start, end, e1), s + 2, nv, Blank(Hybrid).(childs := ch), s + 2);
  }

  lemma SidePiecesBounded(h1: Heap, bs: u32, s1: int, start: int, end: int, e1: int)
    requires ChildBounded(h1)
    ensures ChildBounded(Heap(SidePieces(h1, bs, s1, start, end, e1), h1.seed + 2))
  {
    var s := h1.seed;
    PutBounded(h1.vals, s, s + 1, SidePiece(bs, s1, start - 1), s + 2);
    PutBounded(h1.vals[s + 1 := SidePiece(bs, s1, start - 1)], s + 2, s + 2, SidePiece(bs, end + 1, e1), s + 2);
  }

  /** Storing a value whose children are bounded keeps the heap's children bounded. */
  lemma PutBounded(vals: map<Ref, Value>, n: nat, x: Ref, v: Value, n': nat)
    requires ChildBounded(Heap(vals, n)) && n <= n'
    requires RangeMap.ValsBelow(v.childs, n')
    ensures ChildBounded(Heap(vals[x := v], n'))
  {}

  lemma ThreeChildrenBounded(k1: RangeMap.Range, v1: nat, k2: RangeMap.Range, v2: nat,
                             k3: RangeMap.Range, v3: nat, bound: nat)
    requires v1 <= bound && v2 <= bound && v3 <= bound
    ensures RangeMap.ValsBelow(ThreeChildren(k1, v1, k2, v2, k3, v3), bound)
  {
    RangeMap.InsertAllBelow([], [RangeMap.Entry(k1, v1), RangeMap.Entry(k2, v2), RangeMap.Entry(k3, v3)], bound);
  }
}
