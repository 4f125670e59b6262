/** The symbolic memory of `SEEngine`: byte ranges mapped to values
    (mg-symengine.hpp:15-30, mg-symengine.cpp:462-585). */
module SymMemory {
  import opened Wrappers
  import opened Word
  import opened SymValue
  import RangeMap
  import Hex
  import opened SymEngine

  type Range = RangeMap.Range

  /** `AddrRange ar(addr, addr + nbyte - 1)` in `ADDR32` arithmetic. */
  function Access(addr: u32, nbyte: int): (ar: Range)
    ensures ar.lo == addr
    ensures 1 <= nbyte && addr + nbyte - 1 < MOD32 ==> ar.hi == addr + nbyte - 1
  {
    RangeMap.Range(addr, Wrap(addr + nbyte - 1))
  }

  // ---------------------------------------------------------------- lookups

  /** `memfind(ar)`: the exact range is a key. */
  function MemFind(mem: RangeMap.Map, ar: Range): (b: bool)
    ensures b <==> ar in RangeMap.Keys(mem)
  {
    RangeMap.Get(mem, ar).Some?
  }

  predicate Covers(k: Range, a: int) {
    k.lo <= a <= k.hi
  }

  /** The test `isnew` applies to each key: it holds an end point of `ar`. */
  predicate TouchesEnd(ar: Range, k: Range) {
    Covers(k, ar.lo) || Covers(k, ar.hi)
  }

  /** `isnew(ar)`: no key holds the first or the last address of `ar`. */
  function IsNew(mem: RangeMap.Map, ar: Range): bool {
    RangeMap.FirstKey(mem, k => TouchesEnd(ar, k)).None?
  }

  /** `issubset(ar, &res)`: the first key, in map order, that contains `ar`. */
  function Containing(mem: RangeMap.Map, ar: Range): Option<Range> {
    RangeMap.FirstKey(mem, (k: Range) => k.lo <= ar.lo && k.hi >= ar.hi)
  }

  /** `issuperset(ar, &res)`: the first key, in map order, that `ar` contains. */
  function Contained(mem: RangeMap.Map, ar: Range): Option<Range> {
    RangeMap.FirstKey(mem, (k: Range) => k.lo >= ar.lo && k.hi <= ar.hi)
  }

  /** `isnew` is exactly "no stored range holds an end point of `ar`". */
  lemma IsNewMeaning(mem: RangeMap.Map, ar: Range)
    ensures IsNew(mem, ar) <==> forall k | k in RangeMap.Keys(mem) :: !Covers(k, ar.lo) && !Covers(k, ar.hi)
  {
    if !IsNew(mem, ar) {
      var k := RangeMap.FirstKey(mem, k => TouchesEnd(ar, k)).value;
      assert k in RangeMap.Keys(mem) && TouchesEnd(ar, k);
    } else {
      forall k | k in RangeMap.Keys(mem) ensures !Covers(k, ar.lo) && !Covers(k, ar.hi) {
        RangeMap.KeysIndex(mem, k);
        var i :| 0 <= i < |mem| && mem[i].key == k;
        assert !TouchesEnd(ar, mem[i].key);
      }
    }
  }

  /** Only the end points count: a stored range strictly inside the access does not
      stop it from being new, so the access overlaps stored bytes all the same. */
  lemma IsNewIgnoresInnerRange()
    ensures var mem := [RangeMap.Entry(RangeMap.Range(4, 5), 1)];
            var ar := RangeMap.Range(0, 7);
            IsNew(mem, ar) && Contained(mem, ar) == Some(RangeMap.Range(4, 5))
  {
    var mem := [RangeMap.Entry(RangeMap.Range(4, 5), 1)];
    var ar := RangeMap.Range(0, 7);
    assert !TouchesEnd(ar, mem[0].key);
  }

  // ---------------------------------------------------------------- masks

  function Pow256(k: nat): (r: nat)
    ensures r >= 1
  {
    if k == 0 then 1 else 256 * Pow256(k - 1)
  }

  /** The byte the mask loops append for address `i`: "ff" when `i` lies in [b1,e1]
      for the read mask (`inside`), "ff" when it lies outside for the write mask. */
  function MaskByte(b1: int, e1: int, i: int, inside: bool): nat {
    if (b1 <= i <= e1) == inside then 255 else 0
  }

  /** The loop `for (i = e2; i >= b2; --i) mask += ...` on the number the mask text
      spells: each appended byte shifts what is there up by eight bits. */
  function MaskAcc(acc: nat, b1: int, e1: int, b2: int, i: int, inside: bool): nat
    decreases i - b2 + 1
  {
    if i < b2 then acc else MaskAcc(acc * 256 + MaskByte(b1, e1, i, inside), b1, e1, b2, i - 1, inside)
  }

  /** The number the mask text for the bytes b2..e2 spells. */
  function Mask(b1: int, e1: int, b2: int, e2: int, inside: bool): nat {
    MaskAcc(0, b1, e1, b2, e2, inside)
  }

  /** What the accumulator held moves up past the bytes still to come. */
  lemma {:induction false} MaskAccSplit(acc: nat, b1: int, e1: int, b2: int, i: int, inside: bool)
    requires i >= b2 - 1
    ensures MaskAcc(acc, b1, e1, b2, i, inside) == acc * Pow256(i - b2 + 1) + MaskAcc(0, b1, e1, b2, i, inside)
    decreases i - b2 + 1
  {
    if i >= b2 {
      var x := MaskByte(b1, e1, i, inside);
      var p := Pow256(i - b2);
      var rest := MaskAcc(0, b1, e1, b2, i - 1, inside);
      assert MaskAcc(acc, b1, e1, b2, i, inside) == (acc * 256 + x) * p + rest by {
        MaskAccSplit(acc * 256 + x, b1, e1, b2, i - 1, inside);
      }
      assert MaskAcc(0, b1, e1, b2, i, inside) == x * p + rest by {
        assert MaskAcc(0, b1, e1, b2, i, inside) == MaskAcc(x, b1, e1, b2, i - 1, inside);
        MaskAccSplit(x, b1, e1, b2, i - 1, inside);
      }
      assert Pow256(i - b2 + 1) == 256 * p;
      Spread(acc, x, p);
    }
  }

  lemma Spread(a: nat, x: nat, p: nat)
    ensures (a * 256 + x) * p == a * (256 * p) + x * p
  {}

  /** The mask over b2..i is the top byte, placed at position i - b2, above the mask
      over b2..i-1. */
  lemma MaskTop(b1: int, e1: int, b2: int, i: int, inside: bool)
    requires i >= b2
    ensures Mask(b1, e1, b2, i, inside) ==
            MaskByte(b1, e1, i, inside) * Pow256(i - b2) + Mask(b1, e1, b2, i - 1, inside)
  {
    MaskAccSplit(MaskByte(b1, e1, i, inside), b1, e1, b2, i - 1, inside);
  }

  /** The read mask and the write mask of the same ranges are complements: between
      them every byte of b2..e2 is 0xff exactly once. */
  lemma {:induction false} MasksComplement(b1: int, e1: int, b2: int, e2: int)
    requires e2 >= b2 - 1
    ensures Mask(b1, e1, b2, e2, true) + Mask(b1, e1, b2, e2, false) == Pow256(e2 - b2 + 1) - 1
    decreases e2 - b2 + 1
  {
    if e2 >= b2 {
      MaskTop(b1, e1, b2, e2, true);
      MaskTop(b1, e1, b2, e2, false);
      MasksComplement(b1, e1, b2, e2 - 1);
      var p := Pow256(e2 - b2);
      assert MaskByte(b1, e1, e2, true) + MaskByte(b1, e1, e2, false) == 255;
      assert MaskByte(b1, e1, e2, true) * p + MaskByte(b1, e1, e2, false) * p == 255 * p;
    }
  }

  /** When [b1,e1] lies inside [b2,e2] the read mask is 0xff exactly on the bytes
      b1-b2 .. e1-b2 counted from the least significant one. */
  lemma {:induction false} ReadMaskValue(b1: int, e1: int, b2: int, i: int)
    requires b2 <= b1 <= e1 + 1 && i >= b2 - 1
    ensures Mask(b1, e1, b2, i, true) ==
            (if i < b1 then 0
             else if i <= e1 then Pow256(i - b2 + 1) - Pow256(b1 - b2)
             else Pow256(e1 - b2 + 1) - Pow256(b1 - b2))
    decreases i - b2 + 1
  {
    if i >= b2 {
      MaskTop(b1, e1, b2, i, true);
      ReadMaskValue(b1, e1, b2, i - 1);
      if b1 <= i <= e1 {
        assert Pow256(i - b2 + 1) == 256 * Pow256(i - b2);
        if i == b1 {
          assert Mask(b1, e1, b2, i - 1, true) == 0;
        }
      }
    }
  }

  // ---------------------------------------------------------------- nodes

  /** The nodes the partial read builds: `shr(and(stored, mask), shift)`. */
  predicate ReadNodes(h: Heap, h': Heap, r: Ref, v0: Ref, mask: nat, shift: nat) {
    var s := h.seed;
    && r == s + 4 && h'.seed == s + 4
    && Lit(h', s + 1, mask) && Node(h', s + 2, "and", [v0, s + 1])
    && Lit(h', s + 3, shift) && Node(h', r, "shr", [s + 2, s + 3])
  }

  function AndShr(h: Heap, v0: Ref, mask: nat, shift: nat): (res: Result<(Heap, Ref)>)
    requires v0 <= h.seed
    ensures res.Ok? <==> v0 in h.vals
    ensures res.Ok? ==> ReadNodes(h, res.value.0, res.value.1, v0, mask, shift)
    ensures res.Ok? ==> Keeps(h, res.value.0)
  {
    var (h1, a) :- WithConst(h, "and", v0, mask);
    WithConst(h1, "shr", a, shift)
  }

  /** The nodes the partial write builds: `or(and(stored, mask), shl(v, shift))`. */
  predicate WriteNodes(h: Heap, h': Heap, r: Ref, v0: Ref, v: Ref, mask: nat, shift: nat) {
    var s := h.seed;
    && Lit(h', s + 1, mask) && Node(h', s + 2, "and", [v0, s + 1])
    && ShlOrNodes(s + 2, h', r, s + 2, v, shift)
  }

  /** `or(a, shl(v, shift))` built on top of a counter at `s`. */
  predicate ShlOrNodes(s: nat, h': Heap, r: Ref, a: Ref, v: Ref, shift: nat) {
    && r == s + 3 && h'.seed == s + 3
    && Lit(h', s + 1, shift) && Node(h', s + 2, "shl", [v, s + 1]) && Node(h', r, "or", [a, s + 2])
  }

  function AndShlOr(h: Heap, v0: Ref, v: Ref, mask: nat, shift: nat): (res: Result<(Heap, Ref)>)
    requires v0 <= h.seed && v <= h.seed
    ensures res.Ok? <==> v0 in h.vals && v in h.vals
    ensures res.Ok? ==> WriteNodes(h, res.value.0, res.value.1, v0, v, mask, shift)
    ensures res.Ok? ==> Keeps(h, res.value.0)
  {
    var (h1, a) :- WithConst(h, "and", v0, mask);
    ShlOr(h1, a, v, shift)
  }

  /** `or(a, shl(v, shift))`, the second half of the partial write. */
  function ShlOr(h: Heap, a: Ref, v: Ref, shift: nat): (res: Result<(Heap, Ref)>)
    requires a in h.vals && v <= h.seed
    ensures res.Ok? <==> v in h.vals
    ensures res.Ok? ==> ShlOrNodes(h.seed, res.value.0, res.value.1, a, v, shift)
    ensures res.Ok? ==> Keeps(h, res.value.0)
  {
    var (h2, b) :- WithConst(h, "shl", v, shift);
    BuildOp2(h2, "or", a, b)
  }

  /** The mask and shift of a partial access of `ar` inside the stored range `res`:
      the loop never ends when `res` starts at address 0 (an unsigned `i >= 0`), and
      `stoul` rejects a mask above `unsigned long`. */
  function MaskShift(ar: Range, res: Range, inside: bool): (r: Result<(nat, u32)>)
    ensures r.Ok? <==> res.lo != 0 && Mask(ar.lo, ar.hi, res.lo, res.hi, inside) < Hex.ULONG_LIMIT
    ensures r.Ok? ==> r.value == (Mask(ar.lo, ar.hi, res.lo, res.hi, inside), Wrap((ar.lo - res.lo) * 8))
  {
    if res.lo == 0 then Abort("mask loop does not terminate")
    else
      var mask := Mask(ar.lo, ar.hi, res.lo, res.hi, inside);
      if mask >= Hex.ULONG_LIMIT then Abort("stoul: mask out of range")
      else Ok((mask, Wrap((ar.lo - res.lo) * 8)))
  }

  // ---------------------------------------------------------------- readMem / writeMem

  /** How a read or write of `ar` relates to what is stored. */
  datatype Case = Exact(v: Ref) | Fresh | Wider(res: Range) | Narrower(res: Range) | Overlap

  /** `readMem`'s case analysis: the exact key, else a new range, else the first key
      containing `ar`, else a partial overlap. */
  function ReadCase(mem: RangeMap.Map, ar: Range): (c: Case)
    ensures c.Exact? <==> ar in RangeMap.Keys(mem)
    ensures c.Fresh? <==> ar !in RangeMap.Keys(mem) && IsNew(mem, ar)
    ensures c.Wider? ==> c.res in RangeMap.Keys(mem) && c.res.lo <= ar.lo && ar.hi <= c.res.hi
  {
    match RangeMap.Get(mem, ar)
    case Some(v) => Exact(v)
    case None =>
      if IsNew(mem, ar) then Fresh
      else match Containing(mem, ar)
        case Some(res) => Wider(res)
        case None => Overlap
  }

  /** `readMem(addr, nbyte)`. The exact range reads its value; a new range reads a
      fresh SYMBOL of length `nbyte` that becomes an input; a range inside a stored
      one reads the stored value masked and shifted down; anything else reads NULL. */
  function ReadMem(e: Engine, addr: u32, nbyte: int): (res: Result<(Engine, Ref)>)
    requires Bounded(e)
    ensures res.Ok? ==> Bounded(res.value.0) && res.value.1 <= res.value.0.heap.seed
    ensures res.Ok? ==> var e' := res.value.0;
              e'.ctx == e.ctx && e'.reginput == e.reginput && (RangeMap.Sorted(e.mem) ==> RangeMap.Sorted(e'.mem))
  {
    var ar := Access(addr, nbyte);
    match ReadCase(e.mem, ar)
    case Exact(v) => Ok((e, v))
    case Fresh =>
      var (h', v) := Alloc(e.heap, SymbolValue(nbyte));
      RangeMap.PutBelow(e.mem, ar, v, h'.seed);
      Ok((e.(heap := h', mem := RangeMap.Put(e.mem, ar, v), meminput := e.meminput[v := ar]), v))
    case Wider(res) => ReadInside(e, ar, res)
    case _ => Ok((e, NULL))
  }

  /** The partial read inside the stored range `res`: `shr(and(mem[res], mask), shift)`. */
  function ReadInside(e: Engine, ar: Range, res: Range): (r: Result<(Engine, Ref)>)
    requires Bounded(e)
    ensures r.Ok? ==> Bounded(r.value.0) && r.value.1 <= r.value.0.heap.seed
    ensures r.Ok? ==> r.value.0 == e.(heap := r.value.0.heap)
  {
    var (mask, shift) :- MaskShift(ar, res, true);
    var (h', v) :- AndShr(e.heap, StoredAt(e, res), mask, shift);
    BoundedUp(e, h');
    Ok((e.(heap := h'), v))
  }

  /** `mem[res]` for a key the scans found. */
  function StoredAt(e: Engine, res: Range): (v: Ref)
    requires Bounded(e)
    ensures v <= e.heap.seed
  {
    match RangeMap.Get(e.mem, res)
    case Some(v) => RangeMap.GetBelow(e.mem, res, e.heap.seed); v
    case None => NULL
  }

  /** `writeMem`'s case analysis: the exact key or a new range, else the first key
      inside `ar`, else the first key containing `ar`, else a partial overlap. */
  function WriteCase(mem: RangeMap.Map, ar: Range): (c: Case)
    ensures c.Exact? || c.Fresh? <==> ar in RangeMap.Keys(mem) || IsNew(mem, ar)
    ensures c.Narrower? ==> c.res in RangeMap.Keys(mem) && ar.lo <= c.res.lo && c.res.hi <= ar.hi
    ensures c.Wider? ==> c.res in RangeMap.Keys(mem) && c.res.lo <= ar.lo && ar.hi <= c.res.hi
  {
    match RangeMap.Get(mem, ar)
    case Some(v) => Exact(v)
    case None =>
      if IsNew(mem, ar) then Fresh
      else match Contained(mem, ar)
        case Some(res) => Narrower(res)
        case None =>
          match Containing(mem, ar)
          case Some(res) => Wider(res)
          case None => Overlap
  }

  /** `writeMem(addr, nbyte, v)`. The exact range or a new one is (over)written; a
      stored range inside `ar` is dropped and `ar` stored; a stored range containing
      `ar` gets its bytes outside `ar` merged with `v` shifted into place; a partial
      overlap changes nothing. */
  function WriteMem(e: Engine, addr: u32, nbyte: int, v: Ref): (res: Result<Engine>)
    requires Bounded(e) && v <= e.heap.seed
    ensures res.Ok? ==> Bounded(res.value)
    ensures res.Ok? ==> var e' := res.value;
              e'.ctx == e.ctx && e'.reginput == e.reginput && e'.meminput == e.meminput
              && (RangeMap.Sorted(e.mem) ==> RangeMap.Sorted(e'.mem))
  {
    var ar := Access(addr, nbyte);
    match WriteCase(e.mem, ar)
    case Exact(_) => Ok(Store(e, ar, v))
    case Fresh => Ok(Store(e, ar, v))
    case Narrower(res) =>
      RangeMap.EraseBelow(e.mem, res, e.heap.seed);
      Ok(Store(e.(mem := RangeMap.Erase(e.mem, res)), ar, v))
    case Wider(res) => MergeInto(e, ar, res, v)
    case Overlap => Ok(e)
  }

  /** The partial write into the stored range `res`: `mem[res] = or(and(mem[res],
      mask), shl(v, shift))`. */
  function MergeInto(e: Engine, ar: Range, res: Range, v: Ref): (r: Result<Engine>)
    requires Bounded(e) && v <= e.heap.seed
    ensures r.Ok? ==> Bounded(r.value)
    ensures r.Ok? ==> r.value.ctx == e.ctx && r.value.reginput == e.reginput && r.value.meminput == e.meminput
    ensures r.Ok? ==> r.value.mem == RangeMap.Put(e.mem, res, r.value.heap.seed)
  {
    var (mask, shift) :- MaskShift(ar, res, false);
    var (h', o) :- AndShlOr(e.heap, StoredAt(e, res), v, mask, shift);
    BoundedUp(e, h');
    Ok(Store(e.(heap := h'), res, o))
  }

  /** A larger counter keeps every held reference in bounds. */
  lemma BoundedUp(e: Engine, h': Heap)
    requires Bounded(e) && e.heap.seed <= h'.seed
    ensures Bounded(e.(heap := h'))
  {}

  /** `mem[k] = v`. */
  function Store(e: Engine, k: Range, v: Ref): (e': Engine)
    requires Bounded(e) && v <= e.heap.seed
    ensures Bounded(e')
    ensures e' == e.(mem := RangeMap.Put(e.mem, k, v))
  {
    RangeMap.PutBelow(e.mem, k, v, e.heap.seed);
    e.(mem := RangeMap.Put(e.mem, k, v))
  }

  // ---------------------------------------------------------------- properties

  /** Reading a stored range gives its value and changes nothing. */
  lemma ReadMemExact(e: Engine, addr: u32, nbyte: int)
    requires Bounded(e) && Access(addr, nbyte) in RangeMap.Keys(e.mem)
    ensures ReadMem(e, addr, nbyte) == Ok((e, RangeMap.Get(e.mem, Access(addr, nbyte)).value))
  {}

  /** Reading a new range allocates a SYMBOL whose length is the byte count, stores it
      under the range and records it as a memory input. */
  lemma ReadMemFresh(e: Engine, addr: u32, nbyte: int)
    requires Bounded(e) && HeapValid(e.heap)
    requires ReadCase(e.mem, Access(addr, nbyte)).Fresh?
    ensures ReadMem(e, addr, nbyte).Ok?
    ensures var (e', v) := ReadMem(e, addr, nbyte).value;
            var ar := Access(addr, nbyte);
            && v == e.heap.seed + 1 && v !in e.heap.vals
            && v in e'.heap.vals && e'.heap.vals[v] == SymbolValue(nbyte)
            && Grows(e.heap, e'.heap) && HeapValid(e'.heap)
            && RangeMap.Get(e'.mem, ar) == Some(v)
            && (forall k | k != ar :: RangeMap.Get(e'.mem, k) == RangeMap.Get(e.mem, k))
            && e'.meminput == e.meminput[v := ar]
  {}

  /** A read inside a stored range is the partial read of that range. */
  lemma ReadMemPartial(e: Engine, addr: u32, nbyte: int, res: Range)
    requires Bounded(e) && ReadCase(e.mem, Access(addr, nbyte)) == Wider(res)
    ensures ReadMem(e, addr, nbyte) == ReadInside(e, Access(addr, nbyte), res)
  {}

  /** The partial read builds `shr(and(stored, mask), shift)`, where the mask has 0xff
      on the bytes read and the shift moves them down to bit 0; it fails when the
      stored range starts at address 0, the mask does not fit an `unsigned long`, or
      the stored value is NULL. Memory is left as it was. */
  lemma ReadInsideShape(e: Engine, ar: Range, res: Range)
    requires Bounded(e)
    ensures var mask := Mask(ar.lo, ar.hi, res.lo, res.hi, true);
            ReadInside(e, ar, res).Ok? <==>
              res.lo != 0 && mask < Hex.ULONG_LIMIT && StoredAt(e, res) in e.heap.vals
    ensures var mask := Mask(ar.lo, ar.hi, res.lo, res.hi, true);
            ReadInside(e, ar, res).Ok? ==>
              var (e', r) := ReadInside(e, ar, res).value;
              && e'.mem == e.mem && e'.meminput == e.meminput
              && ReadNodes(e.heap, e'.heap, r, StoredAt(e, res), mask, Wrap((ar.lo - res.lo) * 8))
  {}

  /** A partial overlap that no stored range contains reads NULL. */
  lemma ReadMemOverlap(e: Engine, addr: u32, nbyte: int)
    requires Bounded(e) && ReadCase(e.mem, Access(addr, nbyte)).Overlap?
    ensures ReadMem(e, addr, nbyte) == Ok((e, NULL))
    ensures !IsNew(e.mem, Access(addr, nbyte)) && Containing(e.mem, Access(addr, nbyte)).None?
  {}

  /** A second read of a range the first read found stored or made fresh gives the
      same value and changes nothing. */
  lemma ReadMemTwice(e: Engine, addr: u32, nbyte: int)
    requires Bounded(e) && HeapValid(e.heap)
    requires ReadCase(e.mem, Access(addr, nbyte)).Exact? || ReadCase(e.mem, Access(addr, nbyte)).Fresh?
    ensures ReadMem(e, addr, nbyte).Ok?
    ensures var (e', v) := ReadMem(e, addr, nbyte).value;
            ReadMem(e', addr, nbyte) == Ok((e', v))
  {
    var ar := Access(addr, nbyte);
    if ReadCase(e.mem, ar).Fresh? {
      ReadMemFresh(e, addr, nbyte);
      var (e', v) := ReadMem(e, addr, nbyte).value;
      ReadMemExact(e', addr, nbyte);
    }
  }

  /** Writing the exact range, a new range, or one that covers a stored range stores
      `v` under the range. The covered range (the first one found) is dropped; every
      other stored range keeps its value. */
  lemma WriteMemStores(e: Engine, addr: u32, nbyte: int, v: Ref)
    requires Bounded(e) && v <= e.heap.seed && RangeMap.Sorted(e.mem)
    requires var c := WriteCase(e.mem, Access(addr, nbyte)); c.Exact? || c.Fresh? || c.Narrower?
    ensures WriteMem(e, addr, nbyte, v).Ok?
    ensures var e' := WriteMem(e, addr, nbyte, v).value;
            var ar := Access(addr, nbyte);
            var c := WriteCase(e.mem, ar);
            && e'.heap == e.heap
            && RangeMap.Get(e'.mem, ar) == Some(v)
            && (c.Narrower? ==> c.res != ar && RangeMap.Get(e'.mem, c.res).None?)
            && (forall k | k != ar && !(c.Narrower? && k == c.res) :: RangeMap.Get(e'.mem, k) == RangeMap.Get(e.mem, k))
  {
    var ar := Access(addr, nbyte);
    var c := WriteCase(e.mem, ar);
    if c.Narrower? {
      var m := RangeMap.Erase(e.mem, c.res);
      assert RangeMap.Get(m, c.res).None? by {
        assert RangeMap.Keys(m) == RangeMap.Keys(e.mem) - {c.res};
      }
    }
  }

  /** What a write of the exact range, a new range, or one covering a stored range
      put there is what a read of the same range gives back. */
  lemma ReadAfterWrite(e: Engine, addr: u32, nbyte: int, v: Ref)
    requires Bounded(e) && v <= e.heap.seed && RangeMap.Sorted(e.mem)
    requires var c := WriteCase(e.mem, Access(addr, nbyte)); c.Exact? || c.Fresh? || c.Narrower?
    ensures WriteMem(e, addr, nbyte, v).Ok?
    ensures var e' := WriteMem(e, addr, nbyte, v).value;
            ReadMem(e', addr, nbyte) == Ok((e', v))
  {
    WriteMemStores(e, addr, nbyte, v);
    var e' := WriteMem(e, addr, nbyte, v).value;
    ReadMemExact(e', addr, nbyte);
  }

  /** A write inside a stored range is the partial write into that range. */
  lemma WriteMemPartial(e: Engine, addr: u32, nbyte: int, v: Ref, res: Range)
    requires Bounded(e) && v <= e.heap.seed
    requires WriteCase(e.mem, Access(addr, nbyte)) == Wider(res)
    ensures WriteMem(e, addr, nbyte, v) == MergeInto(e, Access(addr, nbyte), res, v)
  {}

  /** The partial write fails exactly when the stored range starts at address 0, the
      mask does not fit an `unsigned long`, or a value it combines is NULL. */
  lemma MergeIntoOk(e: Engine, ar: Range, res: Range, v: Ref)
    requires Bounded(e) && v <= e.heap.seed
    ensures MergeInto(e, ar, res, v).Ok? <==>
              && res.lo != 0 && Mask(ar.lo, ar.hi, res.lo, res.hi, false) < Hex.ULONG_LIMIT
              && StoredAt(e, res) in e.heap.vals && v in e.heap.vals
  {}

  /** The partial write replaces the stored range's value by
      `or(and(stored, mask), shl(v, shift))`, the mask clearing the bytes written and
      the shift moving `v` up to them; every other range keeps its value. */
  lemma MergeIntoNodes(e: Engine, ar: Range, res: Range, v: Ref)
    requires Bounded(e) && v <= e.heap.seed && MergeInto(e, ar, res, v).Ok?
    ensures var e' := MergeInto(e, ar, res, v).value;
            var r := e'.heap.seed;
            && RangeMap.Get(e'.mem, res) == Some(r)
            && (forall k | k != res :: RangeMap.Get(e'.mem, k) == RangeMap.Get(e.mem, k))
            && WriteNodes(e.heap, e'.heap, r, StoredAt(e, res), v, Mask(ar.lo, ar.hi, res.lo, res.hi, false),
                          Wrap((ar.lo - res.lo) * 8))
  {}

  /** A partial overlap that no stored range contains and that covers none is not
      written at all. */
  lemma WriteMemOverlap(e: Engine, addr: u32, nbyte: int, v: Ref)
    requires Bounded(e) && v <= e.heap.seed && WriteCase(e.mem, Access(addr, nbyte)).Overlap?
    ensures WriteMem(e, addr, nbyte, v) == Ok(e)
    ensures var ar := Access(addr, nbyte);
            !IsNew(e.mem, ar) && Contained(e.mem, ar).None? && Containing(e.mem, ar).None?
  {}

  // ---------------------------------------------------------------- the invariant

  /** `readMem` keeps every reference the engine holds pointing to an existing value. */
  lemma ReadMemWf(e: Engine, addr: u32, nbyte: int)
    requires Wf(e) && ReadMem(e, addr, nbyte).Ok?
    ensures Wf(ReadMem(e, addr, nbyte).value.0)
    ensures e.heap.seed <= ReadMem(e, addr, nbyte).value.0.heap.seed
  {
    var ar := Access(addr, nbyte);
    match ReadCase(e.mem, ar)
    case Exact(_) =>
    case Fresh => AllocBounded(e.heap, SymbolValue(nbyte));
    case Wider(res) =>
      ReadMemPartial(e, addr, nbyte, res);
      ReadInsideBounded(e, ar, res);
    case _ =>
  }

  lemma ReadInsideBounded(e: Engine, ar: Range, res: Range)
    requires Wf(e) && ReadInside(e, ar, res).Ok?
    ensures ChildBounded(ReadInside(e, ar, res).value.0.heap)
    ensures e.heap.seed <= ReadInside(e, ar, res).value.0.heap.seed
  {
    var (mask, shift) := MaskShift(ar, res, true).value;
    var v0 := StoredAt(e, res);
    var (h1, a) := WithConst(e.heap, "and", v0, mask).value;
    WithConstBounded(e.heap, "and", v0, mask);
    WithConstBounded(h1, "shr", a, shift);
  }

  /** `writeMem` keeps the invariant. */
  lemma WriteMemWf(e: Engine, addr: u32, nbyte: int, v: Ref)
    requires Wf(e) && v <= e.heap.seed && WriteMem(e, addr, nbyte, v).Ok?
    ensures Wf(WriteMem(e, addr, nbyte, v).value)
    ensures e.heap.seed <= WriteMem(e, addr, nbyte, v).value.heap.seed
  {
    var ar := Access(addr, nbyte);
    match WriteCase(e.mem, ar)
    case Wider(res) =>
      WriteMemPartial(e, addr, nbyte, v, res);
      MergeIntoBounded(e, ar, res, v);
    case _ =>
  }

  lemma MergeIntoBounded(e: Engine, ar: Range, res: Range, v: Ref)
    requires Wf(e) && v <= e.heap.seed && MergeInto(e, ar, res, v).Ok?
    ensures ChildBounded(MergeInto(e, ar, res, v).value.heap)
    ensures e.heap.seed <= MergeInto(e, ar, res, v).value.heap.seed
  {
    var (mask, shift) := MaskShift(ar, res, false).value;
    var v0 := StoredAt(e, res);
    var (h1, a) := WithConst(e.heap, "and", v0, mask).value;
    WithConstBounded(e.heap, "and", v0, mask);
    var (h2, b) := WithConst(h1, "shl", v, shift).value;
    WithConstBounded(h1, "shl", v, shift);
    BuildOp2Bounded(h2, "or", a, b);
  }
}
