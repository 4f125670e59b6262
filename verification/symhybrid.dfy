/** The fast paths `symexec` takes when the destination register holds a HYBRID value
    and the source is an immediate (mg-symengine.cpp:806-844 for `shl`, 867-891 for
    `shr`, 914-946 for `and`, 998-1030 for `or`): the hybrid's children are rewritten
    in place, or the whole value is folded into one constant. */
module HybridOps {
  import opened Wrappers
  import opened Word
  import opened SymValue
  import RangeMap

  type Range = RangeMap.Range

  const INT_MIN: int := -0x8000_0000
  const INT_MAX: int := 0x7fff_ffff

  /** `(int)stoul(text, 0, 16)`: the conversion to `int` keeps the low 32 bits, read
      as a two's complement number. */
  function ToInt32(n: nat): (r: int)
    ensures INT_MIN <= r <= INT_MAX
    ensures (r - n) % MOD32 == 0
  {
    var w := n % MOD32;
    if w > INT_MAX then w - MOD32 else w
  }

  /** `int` addition; an overflow is undefined behaviour. */
  function AddInt(a: int, b: int): (r: Result<int>)
    ensures r.Ok? <==> INT_MIN <= a + b <= INT_MAX
    ensures r.Ok? ==> r.value == a + b
  {
    if INT_MIN <= a + b <= INT_MAX then Ok(a + b) else Abort("signed overflow")
  }

  /** `bitset<32> <<= n`: the `int` count converts to `size_t`, so a negative count is
      huge and clears every bit, as does a count of 32 or more. */
  function ShlBits(bs: u32, n: int): u32 {
    if n < 0 || n >= 32 then 0 else (bs * Pow2(n)) % MOD32
  }

  /** `bitset<32> >>= n`. */
  function ShrBits(bs: u32, n: int): u32 {
    if n < 0 || n >= 32 then 0 else ShiftRight(bs, n)
  }

  // ---------------------------------------------------------------- shl / shr

  /** What `shl` does to one child value `v` found under `key`: a SYMBOL's range is
      moved by the offset starting from the key (its low end stays when the key
      starts at bit 0); a CONCRETE's bits are shifted and its own range moved (its
      low end stays when it is 0), and its text recomputed; both clamp the high end
      to 31. A HYBRID child is left alone. */
  function ShlChild(v: Value, key: Range, off: int): (r: Result<Value>)
    ensures r.Ok? ==> r.value.kind == v.kind && r.value.childs == v.childs && r.value.opr == v.opr
    ensures r.Ok? && v.kind != Hybrid ==> r.value.hi <= 31
    ensures r.Ok? && v.kind == Symbol ==>
              r.value.lo == (if key.lo != 0 then key.lo + off else v.lo) &&
              r.value.hi == (if key.hi + off > 31 then 31 else key.hi + off)
    ensures v.kind == Hybrid ==> r == Ok(v)
  {
    match v.kind
    case Symbol =>
      var lo :- if key.lo != 0 then AddInt(key.lo, off) else Ok(v.lo);
      var hi :- AddInt(key.hi, off);
      Ok(v.(lo := lo, hi := if hi > 31 then 31 else hi))
    case Concrete =>
      var bits := ShlBits(v.bits, off);
      var lo :- if v.lo != 0 then AddInt(v.lo, off) else Ok(v.lo);
      var hi0 :- AddInt(v.hi, off);
      var hi := if hi0 > 31 then 31 else hi0;
      var c :- Bs2Str(bits, lo, hi);
      Ok(v.(bits := bits, lo := lo, hi := hi, conval := c))
    case Hybrid => Ok(v)
  }

  /** What `shr` does to one child value: its own range is moved down (the high end
      stays when it is 31, the low end stops at 0); a CONCRETE's bits are shifted and
      its text recomputed. The key it is filed under is not looked at. */
  function ShrChild(v: Value, off: int): (r: Result<Value>)
    ensures r.Ok? ==> r.value.kind == v.kind && r.value.childs == v.childs && r.value.opr == v.opr
    ensures r.Ok? && v.kind != Hybrid ==> r.value.lo >= 0
    ensures v.kind == Hybrid ==> r == Ok(v)
  {
    match v.kind
    case Symbol =>
      var hi :- if v.hi != 31 then AddInt(v.hi, -off) else Ok(v.hi);
      var lo :- AddInt(v.lo, -off);
      Ok(v.(lo := if lo < 0 then 0 else lo, hi := hi))
    case Concrete =>
      var bits := ShrBits(v.bits, off);
      var hi :- if v.hi != 31 then AddInt(v.hi, -off) else Ok(v.hi);
      var lo0 :- AddInt(v.lo, -off);
      var lo := if lo0 < 0 then 0 else lo0;
      var c :- Bs2Str(bits, lo, hi);
      Ok(v.(bits := bits, lo := lo, hi := hi, conval := c))
    case Hybrid => Ok(v)
  }

  /** The `shl` loop from child `i` on: each child is shifted in place and filed in
      `nc` under its new range; `map::insert` leaves an existing entry alone. */
  function ShlEach(h: Heap, cs: RangeMap.Map, i: nat, off: int, nc: RangeMap.Map): (r: Result<(Heap, RangeMap.Map)>)
    ensures r.Ok? ==> r.value.0.seed == h.seed && r.value.0.vals.Keys == h.vals.Keys
    decreases |cs| - i
  {
    if i >= |cs| then Ok((h, nc))
    else if cs[i].val !in h.vals then Abort("NULL value dereferenced")
    else
      var c := cs[i].val;
      var v' :- ShlChild(h.vals[c], cs[i].key, off);
      ShlEach(h.(vals := h.vals[c := v']), cs, i + 1, off, RangeMap.Insert(nc, RangeMap.Range(v'.lo, v'.hi), c))
  }

  /** The `shr` loop from child `i` on: each child is shifted in place. */
  function ShrEach(h: Heap, cs: RangeMap.Map, i: nat, off: int): (r: Result<Heap>)
    ensures r.Ok? ==> r.value.seed == h.seed && r.value.vals.Keys == h.vals.Keys
    decreases |cs| - i
  {
    if i >= |cs| then Ok(h)
    else if cs[i].val !in h.vals then Abort("NULL value dereferenced")
    else
      var c := cs[i].val;
      var v' :- ShrChild(h.vals[c], off);
      ShrEach(h.(vals := h.vals[c := v']), cs, i + 1, off)
  }

  /** `shl` on the hybrid `v0`: its children are shifted and `v0->childs` becomes the
      map of them under their new ranges. */
  function ShlHybrid(h: Heap, v0: Ref, off: int): (r: Result<Heap>)
    ensures r.Ok? ==> r.value.seed == h.seed && r.value.vals.Keys == h.vals.Keys
  {
    if v0 !in h.vals then Abort("NULL value dereferenced")
    else
      var (h', nc) :- ShlEach(h, h.vals[v0].childs, 0, off, []);
      Ok(h'.(vals := h'.vals[v0 := h'.vals[v0].(childs := nc)]))
  }

  /** `shr` on the hybrid `v0`: its children are shifted; its map is not touched. */
  function ShrHybrid(h: Heap, v0: Ref, off: int): (r: Result<Heap>)
    ensures r.Ok? ==> r.value.seed == h.seed && r.value.vals.Keys == h.vals.Keys
  {
    if v0 !in h.vals then Abort("NULL value dereferenced")
    else ShrEach(h, h.vals[v0].childs, 0, off)
  }

  // ---------------------------------------------------------------- and / or folds

  /** Bit `j` lies in the range `k`. */
  predicate Covers(k: Range, j: int) {
    k.lo <= j <= k.hi
  }

  /** No bit lies in the ranges of two different children. */
  ghost predicate Disjoint(cs: RangeMap.Map) {
    forall a, b, j :: 0 <= a < b < |cs| && Covers(cs[a].key, j) ==> !Covers(cs[b].key, j)
  }

  /** Whether the bits `lo..hi` of the constant all differ from `bad`: the inner loop
      of the `status` scan. Reading a bit outside 0..31 is undefined. */
  function RangeClear(imm: u32, lo: int, hi: int, bad: bool): (r: Result<bool>)
    ensures r.Ok? <==> lo > hi || (0 <= lo && hi <= 31)
  {
    if lo > hi then Ok(true)
    else if lo < 0 || hi > 31 then Abort("bitset index out of range")
    else Ok(forall j | lo <= j <= hi :: NatBit(imm, j) != bad)
  }

  /** The `status` scan from child `i` on: `and` (`bad` = 1) and `or` (`bad` = 0) fold
      only when no bit of the constant under a SYMBOL child is `bad`. Every child is
      looked at, so a NULL child is always dereferenced. */
  function Status(h: Heap, cs: RangeMap.Map, i: nat, imm: u32, bad: bool): (r: Result<bool>)
    decreases |cs| - i
  {
    if i >= |cs| then Ok(true)
    else if cs[i].val !in h.vals then Abort("NULL value dereferenced")
    else
      var k := cs[i].key;
      var here :- if h.vals[cs[i].val].kind == Symbol then RangeClear(imm, k.lo, k.hi, bad) else Ok(true);
      var rest :- Status(h, cs, i + 1, imm, bad);
      Ok(here && rest)
  }

  /** `&` or `|` on one bit. */
  function Op(isAnd: bool, a: bool, b: bool): bool {
    if isAnd then a && b else a || b
  }

  /** `res->bsconval[i] = b` for every `i` in `lo..hi`. */
  function Fill(acc: seq<bool>, lo: int, hi: int, b: bool): (r: Result<seq<bool>>)
    requires |acc| == 32
    ensures r.Ok? <==> lo > hi || (0 <= lo && hi <= 31)
    ensures r.Ok? ==> |r.value| == 32
    ensures r.Ok? ==> forall j :: 0 <= j < 32 ==> r.value[j] == (if lo <= j <= hi then b else acc[j])
  {
    if lo > hi then Ok(acc)
    else if lo < 0 || hi > 31 then Abort("bitset index out of range")
    else Ok(seq(32, j requires 0 <= j < 32 => if lo <= j <= hi then b else acc[j]))
  }

  /** `res->bsconval[i] = child[i] op imm[i]` for every `i` in `lo..hi`. */
  function Combine(acc: seq<bool>, lo: int, hi: int, cb: u32, imm: u32, isAnd: bool): (r: Result<seq<bool>>)
    requires |acc| == 32
    ensures r.Ok? <==> lo > hi || (0 <= lo && hi <= 31)
    ensures r.Ok? ==> |r.value| == 32
    ensures r.Ok? ==> forall j :: 0 <= j < 32 ==>
              r.value[j] == (if lo <= j <= hi then Op(isAnd, NatBit(cb, j), NatBit(imm, j)) else acc[j])
  {
    if lo > hi then Ok(acc)
    else if lo < 0 || hi > 31 then Abort("bitset index out of range")
    else Ok(seq(32, j requires 0 <= j < 32 =>
                  if lo <= j <= hi then Op(isAnd, NatBit(cb, j), NatBit(imm, j)) else acc[j]))
  }

  /** What one child contributes to bit `j` of the fold: 0 (`and`) or 1 (`or`) under
      a SYMBOL, the combined bit under a CONCRETE, nothing under a HYBRID. */
  function Contribution(cv: Value, imm: u32, isAnd: bool, j: nat, prev: bool): bool {
    if cv.kind == Symbol then !isAnd
    else if cv.kind == Concrete then Op(isAnd, NatBit(cv.bits, j), NatBit(imm, j))
    else prev
  }

  /** One step of the fold loop. */
  function FoldStep(acc: seq<bool>, k: Range, cv: Value, imm: u32, isAnd: bool): (r: Result<seq<bool>>)
    requires |acc| == 32
    ensures r.Ok? ==> |r.value| == 32
    ensures r.Ok? ==> forall j :: 0 <= j < 32 ==>
              r.value[j] == (if Covers(k, j) then Contribution(cv, imm, isAnd, j, acc[j]) else acc[j])
  {
    if cv.kind == Symbol then Fill(acc, k.lo, k.hi, !isAnd)
    else if cv.kind == Concrete then Combine(acc, k.lo, k.hi, cv.bits, imm, isAnd)
    else Ok(acc)
  }

  /** The fold loop from child `i` on, writing into the bits `acc`. */
  function Fold(h: Heap, cs: RangeMap.Map, i: nat, imm: u32, isAnd: bool, acc: seq<bool>): (r: Result<seq<bool>>)
    requires |acc| == 32
    ensures r.Ok? ==> |r.value| == 32
    decreases |cs| - i
  {
    if i >= |cs| then Ok(acc)
    else if cs[i].val !in h.vals then Abort("NULL value dereferenced")
    else
      var acc' :- FoldStep(acc, cs[i].key, h.vals[cs[i].val], imm, isAnd);
      Fold(h, cs, i + 1, imm, isAnd, acc')
  }

  /** The number a bit sequence spells, bit 0 least significant. */
  function FromBits(s: seq<bool>): nat
    decreases |s|
  {
    if |s| == 0 then 0 else (if s[0] then 1 else 0) + 2 * FromBits(s[1..])
  }

  /** The bits of a number, bit 0 first: how a `bitset<32>` views it. */
  function BitsOf(n: nat): (s: seq<bool>)
    ensures |s| == 32
  {
    seq(32, i requires 0 <= i < 32 => NatBit(n, i))
  }

  /** `n` clear bits: a fresh `bitset`. */
  function Clear(n: nat): (s: seq<bool>)
    ensures |s| == n && forall j :: 0 <= j < n ==> !s[j]
  {
    if n == 0 then [] else [false] + Clear(n - 1)
  }

  /** `new Value(CONCRETE)` holding the folded bits, its range [0,31], its text the
      number they spell. */
  function Folded(bits: seq<bool>): (v: Value)
    requires |bits| == 32
    ensures v.kind == Concrete && v.opr.None? && v.childs == [] && v.lo == 0 && v.hi == 31
    ensures BitsOf(v.bits) == bits
  {
    var n := FromBits(bits);
    FromBitsBound(bits);
    FromBitsRoundTrip(bits);
    Pow2Is32();
    Value(Concrete, None, BitsFrom(n, 0, 31), n, 0, 31, [], 32)
  }

  // ---------------------------------------------------------------- lemmas

  /** A sequence of `k` bits spells a number below 2^k. */
  lemma {:induction false} FromBitsBound(s: seq<bool>)
    ensures FromBits(s) < Pow2(|s|)
    decreases |s|
  {
    if |s| > 0 {
      FromBitsBound(s[1..]);
    }
  }

  /** Reading bit `i` of the number a sequence spells gives the sequence's bit `i`. */
  lemma {:induction false} FromBitsBit(s: seq<bool>, i: nat)
    requires i < |s|
    ensures NatBit(FromBits(s), i) == s[i]
    decreases i
  {
    var t := FromBits(s[1..]);
    var b := if s[0] then 1 else 0;
    assert FromBits(s) == b + 2 * t;
    hide FromBits;
    HalfOf(b, t);
    if i > 0 {
      FromBitsBit(s[1..], i - 1);
      assert s[1..][i - 1] == s[i];
    }
  }

  lemma HalfOf(b: nat, t: nat)
    requires b < 2
    ensures (b + 2 * t) % 2 == b && (b + 2 * t) / 2 == t
  { }

  /** Bits to number and back is the identity on 32 bits. */
  lemma FromBitsRoundTrip(s: seq<bool>)
    requires |s| == 32
    ensures BitsOf(FromBits(s)) == s
  {
    forall i | 0 <= i < 32 ensures BitsOf(FromBits(s))[i] == s[i] {
      FromBitsBit(s, i);
    }
  }

  lemma Pow2Is32()
    ensures Pow2(32) == MOD32
  {
    assert Pow2(8) == 256 by {
      assert Pow2(4) == 16 by { assert Pow2(2) == 4; }
    }
    assert Pow2(16) == 65536 by {
      assert Pow2(12) == 4096 by { assert Pow2(10) == 1024; }
    }
    assert Pow2(24) == 16777216 by {
      assert Pow2(20) == 1048576 by { assert Pow2(18) == 262144; }
    }
    assert Pow2(32) == MOD32 by {
      assert Pow2(28) == 268435456 by { assert Pow2(26) == 67108864; }
    }
  }

  /** Every child from `i` on is there, and the bits a SYMBOL child's key names can be
      read: what the `status` scan needs in order not to fail. */
  predicate ScanOk(h: Heap, e: RangeMap.Entry) {
    e.val in h.vals && (h.vals[e.val].kind == Symbol ==> e.key.lo > e.key.hi || (0 <= e.key.lo && e.key.hi <= 31))
  }

  /** No bit of the constant under a SYMBOL child's key is `bad`. */
  predicate SymbolClear(h: Heap, e: RangeMap.Entry, imm: u32, bad: bool)
    requires e.val in h.vals
  {
    h.vals[e.val].kind == Symbol ==> forall b: nat | e.key.lo <= b <= e.key.hi :: NatBit(imm, b) != bad
  }

  /** The `status` scan succeeds exactly when every child can be scanned, and answers
      true exactly when no SYMBOL child has a `bad` bit of the constant under it. */
  lemma {:induction false} StatusMeans(h: Heap, cs: RangeMap.Map, i: nat, imm: u32, bad: bool)
    ensures Status(h, cs, i, imm, bad).Ok? <==> forall a | i <= a < |cs| :: ScanOk(h, cs[a])
    ensures Status(h, cs, i, imm, bad).Ok? ==>
              (Status(h, cs, i, imm, bad).value <==> forall a | i <= a < |cs| :: SymbolClear(h, cs[a], imm, bad))
    decreases |cs| - i
  {
    if i < |cs| {
      StatusMeans(h, cs, i + 1, imm, bad);
    }
  }

  /** After the fold loop a bit that no child's key covers keeps its old value, and a
      bit some child's key covers holds that child's contribution, provided no two
      keys overlap. */
  lemma {:induction false} FoldBit(h: Heap, cs: RangeMap.Map, i: nat, imm: u32, isAnd: bool, acc: seq<bool>, j: int)
    requires |acc| == 32 && 0 <= j < 32 && Disjoint(cs)
    requires Fold(h, cs, i, imm, isAnd, acc).Ok?
    ensures (forall a | i <= a < |cs| :: !Covers(cs[a].key, j)) ==> Fold(h, cs, i, imm, isAnd, acc).value[j] == acc[j]
    ensures forall a | i <= a < |cs| && Covers(cs[a].key, j) ::
              cs[a].val in h.vals &&
              Fold(h, cs, i, imm, isAnd, acc).value[j] == Contribution(h.vals[cs[a].val], imm, isAnd, j, acc[j])
    decreases |cs| - i
  {
    if i < |cs| {
      var acc' := FoldStep(acc, cs[i].key, h.vals[cs[i].val], imm, isAnd).value;
      FoldBit(h, cs, i + 1, imm, isAnd, acc', j);
      assert Fold(h, cs, i, imm, isAnd, acc) == Fold(h, cs, i + 1, imm, isAnd, acc');
      forall a | i < a < |cs| && Covers(cs[a].key, j)
        ensures acc'[j] == acc[j]
      {
        assert !Covers(cs[i].key, j);
      }
    }
  }

  /** The fold is sound: with `status` true, a bit under a SYMBOL child comes out as
      the symbol's bit combined with the constant's bit, whatever the symbol's bit
      is, and a bit under a CONCRETE child as that child's bit combined with it. */
  lemma FoldSound(h: Heap, cs: RangeMap.Map, imm: u32, isAnd: bool, a: nat, j: int)
    requires Disjoint(cs) && a < |cs| && 0 <= j < 32 && Covers(cs[a].key, j)
    requires Status(h, cs, 0, imm, isAnd) == Ok(true)
    requires Fold(h, cs, 0, imm, isAnd, Clear(32)).Ok?
    ensures cs[a].val in h.vals
    ensures var cv := h.vals[cs[a].val];
            var bit := Fold(h, cs, 0, imm, isAnd, Clear(32)).value[j];
            (cv.kind == Symbol ==> forall x: bool :: bit == Op(isAnd, x, NatBit(imm, j))) &&
            (cv.kind == Concrete ==> bit == Op(isAnd, NatBit(cv.bits, j), NatBit(imm, j)))
  {
    FoldBit(h, cs, 0, imm, isAnd, Clear(32), j);
    StatusMeans(h, cs, 0, imm, isAnd);
    assert SymbolClear(h, cs[a], imm, isAnd);
  }

  /** A `shl` or `shr` step leaves every value other than the children it visits
      alone. */
  lemma {:induction false} ShlEachFrame(h: Heap, cs: RangeMap.Map, i: nat, off: int, nc: RangeMap.Map, r: Ref)
    requires ShlEach(h, cs, i, off, nc).Ok? && r in h.vals
    requires forall a | i <= a < |cs| :: cs[a].val != r
    ensures ShlEach(h, cs, i, off, nc).value.0.vals[r] == h.vals[r]
    ensures RangeMap.Keys(nc) <= RangeMap.Keys(ShlEach(h, cs, i, off, nc).value.1)
    decreases |cs| - i
  {
    if i < |cs| {
      var c := cs[i].val;
      var v' := ShlChild(h.vals[c], cs[i].key, off).value;
      ShlEachFrame(h.(vals := h.vals[c := v']), cs, i + 1, off, RangeMap.Insert(nc, RangeMap.Range(v'.lo, v'.hi), c), r);
    }
  }

  /** Children are filed under distinct references. */
  predicate DistinctRefs(cs: RangeMap.Map) {
    forall a, b | 0 <= a < b < |cs| :: cs[a].val != cs[b].val
  }

  /** `shl` re-keys: after it every visited child's new range is a key of the new
      map, provided no value is filed twice. */
  lemma {:induction false} ShlEachKeys(h: Heap, cs: RangeMap.Map, i: nat, off: int, nc: RangeMap.Map)
    requires ShlEach(h, cs, i, off, nc).Ok? && DistinctRefs(cs)
    ensures var (h', nc') := ShlEach(h, cs, i, off, nc).value;
            forall a | i <= a < |cs| :: cs[a].val in h'.vals &&
              RangeMap.Range(h'.vals[cs[a].val].lo, h'.vals[cs[a].val].hi) in RangeMap.Keys(nc')
    decreases |cs| - i
  {
    if i < |cs| {
      var c := cs[i].val;
      var v' := ShlChild(h.vals[c], cs[i].key, off).value;
      var h1 := h.(vals := h.vals[c := v']);
      var nc1 := RangeMap.Insert(nc, RangeMap.Range(v'.lo, v'.hi), c);
      ShlEachKeys(h1, cs, i + 1, off, nc1);
      ShlEachFrame(h1, cs, i + 1, off, nc1, c);
    }
  }

  /** `shr` changes each visited child's range but not its key, nor any value's
      children. */
  lemma {:induction false} ShrEachChilds(h: Heap, cs: RangeMap.Map, i: nat, off: int, r: Ref)
    requires ShrEach(h, cs, i, off).Ok? && r in h.vals
    ensures ShrEach(h, cs, i, off).value.vals[r].childs == h.vals[r].childs
    ensures ShrEach(h, cs, i, off).value.vals[r].kind == h.vals[r].kind
    decreases |cs| - i
  {
    if i < |cs| {
      var c := cs[i].val;
      var v' := ShrChild(h.vals[c], off).value;
      ShrEachChilds(h.(vals := h.vals[c := v']), cs, i + 1, off, r);
    }
  }

  /** So after `shr` the hybrid still files its children under their old keys. */
  lemma ShrKeepsKeys(h: Heap, v0: Ref, off: int)
    requires ShrHybrid(h, v0, off).Ok?
    ensures v0 in h.vals
    ensures ShrHybrid(h, v0, off).value.vals[v0].childs == h.vals[v0].childs
  {
    ShrEachChilds(h, h.vals[v0].childs, 0, off, v0);
  }

  /** Shifting right by `n` moves bit `k + n` to bit `k`. */
  lemma {:induction false} ShiftRightBit(x: nat, n: nat, k: nat)
    ensures NatBit(ShiftRight(x, n), k) == NatBit(x, k + n)
    decreases n
  {
    if n > 0 {
      ShiftRightBit(x / 2, n - 1, k);
      assert NatBit(x, k + n) == NatBit(x / 2, k + n - 1);
    }
  }

  /** A stale key, concretely: a SYMBOL child covering bits 8..15, shifted right by 8,
      now covers bits 0..7 but is still filed under 8..15. */
  lemma ShrStaleKey()
    ensures var c := SymbolValue(8).(lo := 8, hi := 15);
            var h := Heap(map[1 := c, 2 := Blank(Hybrid).(childs := [RangeMap.Entry(RangeMap.Range(8, 15), 1)])], 2);
            var h' := ShrHybrid(h, 2, 8);
            h'.Ok? && h'.value.vals[1].lo == 0 && h'.value.vals[1].hi == 7 &&
            h'.value.vals[2].childs == [RangeMap.Entry(RangeMap.Range(8, 15), 1)]
  {
  }

  /** `shl` keeps every value's children, and its new map only files children it
      was given. */
  lemma {:induction false} ShlEachBounded(h: Heap, cs: RangeMap.Map, i: nat, off: int, nc: RangeMap.Map, n: nat)
    requires ShlEach(h, cs, i, off, nc).Ok?
    requires RangeMap.ValsBelow(nc, n) && RangeMap.ValsBelow(cs, n)
    ensures var (h', nc') := ShlEach(h, cs, i, off, nc).value;
            RangeMap.ValsBelow(nc', n) && forall r | r in h.vals :: h'.vals[r].childs == h.vals[r].childs
    decreases |cs| - i
  {
    if i < |cs| {
      var c := cs[i].val;
      var v' := ShlChild(h.vals[c], cs[i].key, off).value;
      var k := RangeMap.Range(v'.lo, v'.hi);
      if k !in RangeMap.Keys(nc) {
        RangeMap.PutBelow(nc, k, c, n);
      }
      ShlEachBounded(h.(vals := h.vals[c := v']), cs, i + 1, off, RangeMap.Insert(nc, k, c), n);
    }
  }

  /** `shl` on a hybrid keeps every child reference pointing below the id counter. */
  lemma ShlHybridBounded(h: Heap, v0: Ref, off: int)
    requires ChildBounded(h) && ShlHybrid(h, v0, off).Ok?
    ensures ChildBounded(ShlHybrid(h, v0, off).value)
  {
    ShlEachBounded(h, h.vals[v0].childs, 0, off, [], h.seed);
  }

  /** `shr` on a hybrid keeps every child reference pointing below the id counter. */
  lemma ShrHybridBounded(h: Heap, v0: Ref, off: int)
    requires ChildBounded(h) && ShrHybrid(h, v0, off).Ok?
    ensures ChildBounded(ShrHybrid(h, v0, off).value)
  {
    var h' := ShrHybrid(h, v0, off).value;
    forall r | r in h'.vals ensures RangeMap.ValsBelow(h'.vals[r].childs, h'.seed) {
      ShrEachChilds(h, h.vals[v0].childs, 0, off, r);
    }
  }
}
