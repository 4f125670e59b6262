# VMHunt core in Dafny

This project models the analysis core of VMHunt. VMHunt is a tool that finds the
virtualised snippets of a program in an instruction trace and simplifies them. The
model covers four parts, each written as pure functions over immutable data:

- **The trace parser** (`parser.cpp`). One trace line is
  `address;disassembly;eax,ebx,ecx,edx,esi,edi,esp,ebp,raddr,waddr,`. The parser reads
  each line into an instruction, then turns each operand text into a typed operand
  (immediate, register or memory address of one of seven shapes) with an access width.
  Module `Parser`; hexadecimal and decimal number reading in `Hex`.
- **Trace preprocessing and virtual-machine extraction** (`vmextract.cpp`):
  - numbering the opcodes and collecting the jump opcodes;
  - the peephole pass that erases cancelling pairs;
  - detecting the seven-register context saves and restores, and pairing them by stack depth;
  - typing and counting the control-flow edges.

  Module `VmExtract`.
- **The backward slicer** (`core.cpp`, `slicer.cpp`):
  - byte-level parameters, their order and their equality;
  - assigning source and destination parameters to each instruction;
  - the worklist walk that keeps the instructions a final value depends on.

  Modules `Core`, `Slicer`.
- **The symbolic execution engine** (`mg-symengine.cpp`, `mg-symengine.hpp`):
  - formula nodes (`Value`) kept in an id-indexed heap (`SymValue`);
  - registers with their 16- and 8-bit parts (`SymEngine`);
  - the byte-range memory model (`SymMemory`, over the ordered map `RangeMap`);
  - the bit-level tricks on HYBRID values (`HybridOps`);
  - the per-instruction interpreter (`SymExec`, with properties in `ExecProps`);
  - concrete evaluation of formulas (`SymEval`).

Some conventions hold throughout:

- A C++ pointer to a `Value` is its id. `NULL` is id 0: `idseed` starts at 0 and every
  constructor pre-increments it.
- C++ behaviour that depends on run-time data gives an `Abort(why)` outcome of a
  failure-compatible `Result` (module `Wrappers`). This covers a NULL dereference, an
  uncaught `stoul` exception, an out-of-range `bitset` index, a loop that never ends and
  a dereference of a list's end. Everything else returns `Ok`.
- Integer widths are explicit: `ADDR32` and `uint32_t` arithmetic wraps modulo 2^32
  (`Word.Wrap`), and `int` overflow is a failure.
- The register layout follows section 3.4.1 of the Intel 64 and IA-32 Architectures
  Software Developer's Manual, Vol. 1.
- Where the source does something its authors evidently did not intend (see
  "## Findings"), the operations follow the code as written: `SymExec.Step` and
  `SymExec.Run` run the two-operand case as written, and the parser fills operands with
  `Parser.CreateOperandAsWritten`. The corrected definitions (`SymExec.StepFixed`,
  `SymExec.RunFixed`, `Parser.CreateOperand`) sit beside them, and lemmas relate the two.

## Model

| member | source | states |
|---|---|---|
| Word.Wrap | core.hpp:1 | `ADDR32` arithmetic: the result is congruent to the unbounded value modulo 2^32 and equal to it when it is in range |
| Word.WrapAdd | mg-symengine.cpp:254 | truncating an intermediate sum early does not change the final 32-bit result |
| Word.Low32 | mg-symengine.cpp:62 | `bitset<32>(n)` keeps the number unchanged when it fits in 32 bits |
| Hex.ParseHex | mg-symengine.cpp:62 | `stoul(text, 0, 16)` never yields a value beyond `unsigned long`: a larger number is the `out_of_range` failure |
| Hex.RenderParse | mg-symengine.cpp:529-531 | writing a number as `0x` plus hex digits and reading it back with `stoul` gives the number |
| Hex.RenderParseBare | parser.cpp:188 | reading bare hex digits (no `0x`), as in a trace address, gives back the number they were written from |
| Hex.ToHex | parser.cpp:253-255 | `%x`: a non-empty run of hex digits (with Hex.RenderParse, one that reads back) |
| Hex.ParseDec | mg-symengine.cpp:251 | `stoi` only yields values in the `int` range; anything else is a failure (what it reads is stated by Hex.DecRenderParse) |
| Hex.ParseDecDigit | mg-symengine.cpp:251 | a one-digit scale factor reads as its digit value, and with a leading `-` as its negation |
| Hex.DecRenderParse | mg-symengine.cpp:251 | `stoi` reads a decimal spelling, with or without `-`, back as its signed value exactly when that value fits in an `int`, and fails otherwise |
| RangeMap.KeysIndex | mg-symengine.hpp:12 | a key of the ordered map is the key of one of its entries, which are sorted by `(first, second)` |
| RangeMap.Get | mg-symengine.hpp:16-22 | `map::find`: the value under the key, and none exactly when the key is absent |
| RangeMap.Put | mg-symengine.cpp:515 | `mem[k] = v`: the key maps to `v`, every other key keeps its value, the map stays sorted |
| RangeMap.Insert | mg-symengine.cpp:364-366 | `map::insert`: adds the entry only when the key is absent, otherwise leaves the map as it was |
| RangeMap.InsertAll | mg-symengine.cpp:364-366 | successive inserts keep the map sorted |
| RangeMap.Erase | mg-symengine.cpp:555 | `map::erase(k)`: removes exactly that key from a sorted map, others keep their values |
| RangeMap.Replace | mg-symengine.cpp:345 | re-pointing the entry of a present key keeps the key set and the order |
| RangeMap.ReplaceGet | mg-symengine.cpp:345 | after re-pointing, the key reads the new value and other keys read as before |
| RangeMap.FirstKey | mg-symengine.cpp:464-475 | the in-order scan of `issubset`/`issuperset`/`isnew` returns the first key that satisfies the test, or none exactly when no key does |
| RangeMap.FirstKeyFirst | mg-symengine.cpp:464-475 | no key before the one returned satisfies the test |
| RangeMap.FirstKeyIsLeast | mg-symengine.cpp:464-490 | the key returned is the least satisfying key in `(first, second)` order |
| SymValue.Alloc | mg-symengine.cpp:46-102 | every constructor hands out id `++idseed`: the new id is above every stored id and no stored value changes |
| SymValue.AllocValid | mg-symengine.cpp:46-102 | allocation keeps the heap valid (ids 1..seed) and acyclic |
| SymValue.NewConcrete | mg-symengine.cpp:62-70 | `Value(CONCRETE, text)` fails exactly when `stoul` rejects the text, otherwise it is a fresh literal of range [0,31] holding the number |
| SymValue.Inspect | mg-symengine.cpp:176-188 | the left-to-right `isSymbol()` tests: SYMBOL iff some operand is SYMBOL with every earlier one present, CONCRETE iff all are present and none is SYMBOL |
| SymValue.BuildOp | mg-symengine.cpp:171-209 | `buildop1/2/3`: a fresh node carrying the operation over the operands, SYMBOL iff some operand is SYMBOL, never HYBRID, no old value changed |
| SymValue.BuildOp1 | mg-symengine.cpp:171-182 | the operand is always dereferenced; the node is SYMBOL iff the operand is |
| SymValue.BuildOp2 | mg-symengine.cpp:184-194 | the second operand is dereferenced only when the first is not SYMBOL; the node is SYMBOL iff either operand is |
| SymValue.BuildOpFresh | mg-symengine.cpp:171-209 | with all operands present a node is always built, fresh, with the kind rule above, and the heap only grows |
| SymValue.BuildOpArities | mg-symengine.cpp:171-194 | the one- and two-operand builders agree with the general builder |
| SymValue.BuildOp2NullSecond | mg-symengine.cpp:188 | a NULL second operand gets into a node exactly when the first operand is SYMBOL |
| SymValue.WithConst | mg-symengine.cpp:389-390 | a literal then a node over `x` and the literal: fails exactly when `x` is NULL |
| SymValue.WithConstShape | mg-symengine.cpp:389-390 | the literal and the node are the next two ids, the node has the kind of `x`, older values unchanged |
| SymValue.WithConstWf | mg-symengine.cpp:389-390 | a valid, acyclic, closed heap stays so |
| SymValue.HasVal | mg-symengine.cpp:305-313 | true exactly when the value has a child at exactly [start,end]; a NULL value fails |
| SymValue.ReadVal | mg-symengine.cpp:315-323 | the child at exactly [start,end], NULL when there is none |
| SymValue.Bs2Str | mg-symengine.cpp:325-336 | defined exactly when the bit range lies within [0,31] (0 for an empty range) |
| SymValue.BitsFromBits | mg-symengine.cpp:325-336 | the number `bs2str` spells keeps exactly bits lo..hi of the bitset, moved down to bit 0, and nothing above |
| SymValue.SplitValsShape | mg-symengine.cpp:353-369 | a symbolic write into a concrete word yields a HYBRID over [s1,e1] whose children are the two side pieces and the written value |
| SymValue.SplitValsDomain | mg-symengine.cpp:353-369 | the split adds exactly the hybrid and the two side pieces to the heap |
| SymValue.ThreeChildren | mg-symengine.cpp:364-366 | three successive inserts give a sorted map with those three keys, an earlier insert winning on a repeated key |
| SymValue.ThreeInserts | mg-symengine.cpp:364-366 | the three-insert map is what `map::insert` three times builds |
| SymValue.WriteVal | mg-symengine.cpp:338-374 | no contract of its own; what it writes is stated by `SymValue.WriteValSplitsLiteral`, `SymValue.WriteValOfLiteral` and `SymValue.WriteValBounded` |
| SymValue.WriteValSplitsLiteral | mg-symengine.cpp:338-374 | writing a symbolic byte into bits [8,15] of a literal word gives a hybrid of exactly [0,7], [8,15], [16,31], with the outer pieces keeping the word's bits and the middle the symbol |
| SymValue.WriteValLiteralGrows | mg-symengine.cpp:338-374 | that split only adds values: the heap stays valid and grows |
| SymValue.WriteValOfLiteral | mg-symengine.cpp:338-374 | on a concrete word and a symbolic byte, `writeVal` returns the fresh hybrid over the split heap |
| SymValue.ByteSplitShape | mg-symengine.cpp:353-369 | the byte split's pieces: low byte and upper half as literals of the word's bits, middle the symbol |
| SymValue.ByteSplitGrows | mg-symengine.cpp:353-369 | the byte split keeps the heap valid and only grows it |
| SymValue.WriteValBounded | mg-symengine.cpp:338-374 | `writeVal` keeps every child reference below the id counter and returns an existing value or NULL |
| Core.RegOrd | core.hpp:4-15 | the enumerators' integer values, at most 20, with 20 exactly for UNK |
| Core.RegOrdInjective | core.hpp:4-15 | distinct registers have distinct enumerator values |
| Core.Canon | core.cpp:10-35 | the representative of a parameter's `==` class keeps its type and index, and its register for REG |
| Core.Eq | core.cpp:10-35 | no contract of its own; `Core.EqIffSameCanon` states that `==` compares representatives and `Core.EqIsEquivalence` that it is "neither is `<` the other" |
| Core.Less | core.cpp:37-70 | no contract of its own; `Core.LessIrreflexive`, `Core.LessTransitive` and `Core.LessTrichotomy` state that it is a strict total order up to `==` |
| Core.EqIffSameCanon | core.cpp:10-35 | two parameters are `==` exactly when their representatives coincide |
| Core.LessIrreflexive | core.cpp:37-70 | `operator<` is irreflexive |
| Core.LessTransitive | core.cpp:37-70 | `operator<` is transitive |
| Core.LessTrichotomy | core.cpp:10-70 | any two parameters are `<` one way or the other, or `==` |
| Core.EqIsEquivalence | core.cpp:10-70 | `==` holds exactly when neither parameter is `<` the other |
| Core.Reg2String | core.cpp:80-101 | a name other than "unknown" exactly for EAX..EBP |
| Core.OwnerSpelling | mg-symengine.cpp:384-394 | the owning register is spelled `"e" + s` for 16-bit names and `'e' + s[0] + 'x'` for 8-bit names |
| Core.GetRegParameter | core.cpp:154-240 | byte indices 0-3 for 32-bit names, 0-1 for 16-bit, 0 for al..dl, 1 for ah..dh; an unknown name pushes nothing and gives UNK; x87, segment registers and `sp` give UNK |
| Core.GetRegParameterMatchesLayout | core.cpp:154-240 | for general-purpose names the register is the IA-32 owner and the bytes are those of the name's bit range |
| Core.DefaultOperand | core.hpp:26 | a fresh `Operand` has `bit = 0`, `issegaddr = false`, no type and five empty fields |
| Core.Append | core.hpp:62-65 | appending to one parameter list leaves the other three and the instruction's other fields alone |
| Core.ByName | core.cpp:242-262 | string overloads: IMM into a source list is one parameter holding the `stoul` value, failing when the text is not hex; REG appends the register bytes; a destination given IMM appends nothing; MEM by name appends nothing (likewise at lines 274-289, 301-321, 333-348) |
| Core.ByRange | core.cpp:264-272 | range overloads: one parameter per address from `first` to `second`, ascending; the 32-bit loop never ends when `second` is 0xffffffff (likewise at lines 291-298, 323-331, 350-357) |
| Core.ByRangeCovers | core.cpp:264-272 | an address is covered exactly when it lies in the range |
| SymEngine.NewEngine | mg-symengine.hpp:44-48 | a new engine's `ctx` holds exactly the eight 32-bit names, all NULL, and memory and inputs are empty |
| SymEngine.RegIndex | mg-symengine.cpp:621-653 | the position of a 32-bit register in the allocation order |
| SymEngine.InitRegsHeap | mg-symengine.cpp:621-653 | the allocation loop adds one 32-bit SYMBOL per name with the next ids in order, leaving memory alone |
| SymEngine.InitRegsSlot | mg-symengine.cpp:621-653 | the name at position j gets the j-th fresh id |
| SymEngine.InitRegsKeep | mg-symengine.cpp:621-653 | slots not named keep their values |
| SymEngine.InitRegsInput | mg-symengine.cpp:621-653 | `reginput` records each fresh id under its name, older records kept |
| SymEngine.GeneralRegsDistinct | mg-symengine.cpp:621-653 | the eight names are distinct and each sits at its index |
| SymEngine.InitAllRegSymbol | mg-symengine.cpp:621-653 | `initAllRegSymol` allocates exactly eight ids, keeps `ctx` to the eight names and memory as it was |
| SymEngine.InitAllRegSymbolFresh | mg-symengine.cpp:621-653 | each register's new slot is a fresh 32-bit SYMBOL recorded in `reginput` under the register's name |
| SymEngine.InitAllRegSymbolDistinct | mg-symengine.cpp:621-653 | no two registers share their symbol |
| SymEngine.InitAllRegKeys | mg-symengine.cpp:621-653 | after initialisation `ctx` holds exactly the eight names |
| SymEngine.InitAllRegSlot | mg-symengine.cpp:621-653 | each register holds the id of its position in the order eax, ebx, ecx, edx, esi, edi, esp, ebp |
| SymEngine.MasksComplement | mg-symengine.cpp:389-450 | each read mask and its write mask split the 32 bits between them, the read mask having ones exactly on lo..hi |
| SymEngine.MaskBits | mg-symengine.cpp:389-411 | a mask 2^(hi+1) - 2^lo has ones exactly on bits lo..hi |
| SymEngine.Extract | mg-symengine.cpp:388-415 | `and(owner, mask)` (then `shr` by lo for the high byte) as fresh nodes; fails exactly when the owner is NULL |
| SymEngine.ExtractShifted | mg-symengine.cpp:410-415 | the high-byte read `shr(and(owner, mask), lo)` as fresh nodes; fails exactly when the owner is NULL |
| SymEngine.ReadPart | mg-symengine.cpp:382-416 | a sub-register read returns the owner's child at exactly [lo,hi] with the heap unchanged when there is one, otherwise the extracted bits; fails exactly on a NULL owner |
| SymEngine.ReadReg | mg-symengine.cpp:376-421 | 32-bit names read their slot, 16/8-bit names read their bits of the owner, any other name reads NULL; `ctx` is never touched |
| SymEngine.MergeLow | mg-symengine.cpp:429-442 | `or(and(owner, keep), v)` as fresh nodes, older values kept; fails exactly when the owner is NULL, or is not SYMBOL while `v` is NULL |
| SymEngine.ShiftMerge | mg-symengine.cpp:447-455 | `or(and(owner, 0xffff00ff), shl(v, 0x8))`; fails exactly when the owner or `v` is NULL |
| SymEngine.WriteHigh | mg-symengine.cpp:443-455 | for the ah family, a CONCRETE owner and a SYMBOL value take the `writeVal` split; otherwise the shift-and-merge |
| SymEngine.WriteReg | mg-symengine.cpp:423-459 | 32-bit names overwrite their slot; ax and al families merge with masks 0xffff0000 / 0xffffff00; ah family as above; any other name changes nothing |
| SymEngine.WriteRegOnlyOwner | mg-symengine.cpp:423-459 | a register write changes exactly the owner's slot, memory and input records untouched, `ctx` keeps the eight names |
| SymEngine.GetValueAfterWrite | mg-symengine.hpp:64 | `getValue(s)` returns what the last 32-bit `writeReg(s, v)` stored; other registers read as before |
| SymEngine.ReadRegWf | mg-symengine.cpp:376-421 | a register read only extends the heap and returns an existing value or NULL |
| SymEngine.WriteRegWf | mg-symengine.cpp:423-459 | a register write keeps every held reference pointing to an existing value |
| SymMemory.Access | mg-symengine.cpp:507-509 | `AddrRange(addr, addr + nbyte - 1)` in 32-bit arithmetic |
| SymMemory.MemFind | mg-symengine.hpp:16-30 | `memfind` is true exactly when the range is a key |
| SymMemory.IsNew | mg-symengine.cpp:493-503 | no contract of its own; `SymMemory.IsNewMeaning` states that it holds exactly when no stored range contains an end of the access |
| SymMemory.IsNewMeaning | mg-symengine.cpp:493-503 | `isnew` holds exactly when no stored range contains either end of the access |
| SymMemory.IsNewIgnoresInnerRange | mg-symengine.cpp:493-503 | a stored range strictly inside the access does not stop it being "new" |
| SymMemory.MasksComplement | mg-symengine.cpp:523-568 | the read mask and the write mask for the same ranges cover every byte of the stored range exactly once with 0xff |
| SymMemory.ReadMaskValue | mg-symengine.cpp:523-528 | when [b1,e1] lies in [b2,e2], the read mask is 0xff exactly on bytes b1-b2..e1-b2 |
| SymMemory.MaskTop | mg-symengine.cpp:523-528 | the mask text is built most significant byte first |
| SymMemory.MaskShift | mg-symengine.cpp:519-531 | mask and shift `(b1-b2)*8` of a partial access; fails when the stored range starts at 0 (the unsigned loop never ends) or the mask exceeds `unsigned long` |
| SymMemory.AndShr | mg-symengine.cpp:533-537 | the partial read's nodes `shr(and(stored, mask), shift)`, older values kept; fails exactly on a NULL stored value |
| SymMemory.AndShlOr | mg-symengine.cpp:574-579 | the partial write's nodes `or(and(stored, mask), shl(v, shift))`; fails exactly when the stored value or `v` is NULL |
| SymMemory.ShlOr | mg-symengine.cpp:577-579 | the `or(a, shl(v, shift))` half of the partial write |
| SymMemory.ReadCase | mg-symengine.cpp:511-543 | the exact key, else a new range, else a key containing the access, else a partial overlap |
| SymMemory.ReadMem | mg-symengine.cpp:505-544 | `readMem` never touches registers or register inputs, keeps memory sorted and returns a held reference |
| SymMemory.ReadInside | mg-symengine.cpp:518-539 | the partial read changes nothing but the heap |
| SymMemory.WriteCase | mg-symengine.cpp:551-584 | exact or new, else a stored range inside the access, else one containing it, else a partial overlap |
| SymMemory.WriteMem | mg-symengine.cpp:546-585 | `writeMem` never touches registers or input records |
| SymMemory.MergeInto | mg-symengine.cpp:558-581 | the partial write re-points only the containing range's entry |
| SymMemory.Store | mg-symengine.cpp:552 | `mem[k] = v` |
| SymMemory.ReadMemExact | mg-symengine.cpp:511 | reading a stored range returns its value and changes nothing |
| SymMemory.ReadMemFresh | mg-symengine.cpp:513-517 | reading a new range allocates a SYMBOL of length `nbyte`, stores it under the range and records it in `meminput` |
| SymMemory.ReadMemPartial | mg-symengine.cpp:518-539 | a read inside a stored range is the partial read of the first containing range |
| SymMemory.ReadInsideShape | mg-symengine.cpp:518-539 | the partial read is `shr(and(stored, mask), shift)` with the mask 0xff on the bytes read and the shift moving them to bit 0; fails when the range starts at 0, the mask overflows or the stored value is NULL; memory unchanged |
| SymMemory.ReadMemOverlap | mg-symengine.cpp:540-543 | a partial overlap no stored range contains reads NULL and changes nothing |
| SymMemory.ReadMemTwice | mg-symengine.cpp:511-517 | a second read of an exact or new range gives the same value and changes nothing |
| SymMemory.WriteMemStores | mg-symengine.cpp:551-557 | an exact, new or covering write stores `v` under the range, drops the first covered range, and keeps every other range's value |
| SymMemory.ReadAfterWrite | mg-symengine.cpp:505-557 | what an exact, new or covering write stored is what a read of the same range returns |
| SymMemory.WriteMemPartial | mg-symengine.cpp:558-581 | a write inside a stored range is the partial write into the first containing range |
| SymMemory.MergeIntoOk | mg-symengine.cpp:558-581 | the partial write fails exactly when the range starts at 0, the mask overflows, or a combined value is NULL |
| SymMemory.MergeIntoNodes | mg-symengine.cpp:558-581 | the partial write replaces the stored value by `or(and(stored, mask), shl(v, shift))`, mask 00 on the bytes written; other ranges keep their values |
| SymMemory.WriteMemOverlap | mg-symengine.cpp:582-584 | a partial overlap that no stored range contains and that covers none is not written |
| SymMemory.ReadMemWf | mg-symengine.cpp:505-544 | `readMem` keeps every held reference pointing to an existing value |
| SymMemory.WriteMemWf | mg-symengine.cpp:546-585 | `writeMem` keeps every held reference pointing to an existing value |
| HybridOps.ToInt32 | mg-symengine.cpp:831 | `(int)stoul(...)`: the low 32 bits read as two's complement (likewise at line 888) |
| HybridOps.AddInt | mg-symengine.cpp:837-838 | `int` addition is defined exactly when it does not overflow |
| HybridOps.ShiftRightBit | mg-symengine.cpp:897 | shifting right by n moves bit k + n to bit k |
| HybridOps.ShlChild | mg-symengine.cpp:834-852 | `shl` on one child: a SYMBOL's range is moved from its key (low end kept at 0), a CONCRETE's bits shifted and range moved, both clamped at 31; kind, children and operation kept |
| HybridOps.ShrChild | mg-symengine.cpp:890-905 | `shr` on one child: its own range moved down (high end kept at 31, low end stopping at 0), a CONCRETE's bits shifted; kind, children and operation kept |
| HybridOps.ShlEach | mg-symengine.cpp:833-853 | the `shl` loop allocates nothing and keeps the heap's ids |
| HybridOps.ShrEach | mg-symengine.cpp:889-906 | the `shr` loop allocates nothing and keeps the heap's ids |
| HybridOps.ShlHybrid | mg-symengine.cpp:829-854 | `shl` on a hybrid allocates nothing |
| HybridOps.ShrHybrid | mg-symengine.cpp:886-906 | `shr` on a hybrid allocates nothing |
| HybridOps.ShlEachFrame | mg-symengine.cpp:833-853 | `shl` leaves every value other than the visited children alone, and the new map keeps earlier entries |
| HybridOps.ShlEachKeys | mg-symengine.cpp:852-854 | after `shl` each child is filed under its new range |
| HybridOps.ShrEachChilds | mg-symengine.cpp:889-906 | `shr` changes ranges but not the keys a hybrid files its children under, nor any value's kind |
| HybridOps.ShrKeepsKeys | mg-symengine.cpp:886-906 | after `shr` the hybrid's child map is unchanged |
| HybridOps.ShrStaleKey | mg-symengine.cpp:886-906 | concretely: a SYMBOL child covering bits 8..15, shifted right by 8, covers 0..7 but is still filed under 8..15 |
| HybridOps.RangeClear | mg-symengine.cpp:944-946 | scanning bits lo..hi of the constant is defined exactly when the range lies in [0,31] or is empty |
| HybridOps.StatusMeans | mg-symengine.cpp:941-948 | the `status` scan succeeds exactly when every child can be scanned, and is true exactly when no SYMBOL child has a 1 (`and`) or 0 (`or`) bit of the constant under it (likewise at lines 1001-1008) |
| HybridOps.FoldStep | mg-symengine.cpp:953-965 | one child's contribution to the folded bits |
| HybridOps.Fold | mg-symengine.cpp:953-965 | the fold loop yields 32 bits |
| HybridOps.FoldBit | mg-symengine.cpp:953-965 | with non-overlapping keys, a bit no key covers keeps its old value and a covered bit holds its child's contribution |
| HybridOps.FoldSound | mg-symengine.cpp:941-967 | with `status` true, a bit under a SYMBOL child is the symbol's bit combined with the constant's, whatever the symbol's bit, and a bit under a CONCRETE child is that child's bit combined with it |
| HybridOps.BitsOf | mg-symengine.cpp:26 | a `bitset<32>`'s 32 bits |
| HybridOps.Clear | mg-symengine.cpp:950 | a fresh bitset: every bit 0 |
| HybridOps.Folded | mg-symengine.cpp:950-966 | the folded constant is a CONCRETE of range [0,31] whose bitset is the folded bits |
| HybridOps.FromBitsRoundTrip | mg-symengine.cpp:966 | bits to number and back is the identity on 32 bits |
| HybridOps.FromBitsBit | mg-symengine.cpp:966 | bit i of the number the bits spell is bit i of the sequence |
| HybridOps.ShlHybridBounded | mg-symengine.cpp:829-854 | `shl` keeps every child reference below the id counter |
| HybridOps.ShrHybridBounded | mg-symengine.cpp:886-906 | `shr` keeps every child reference below the id counter |
| SymExec.GetReg | mg-symengine.cpp:376-421 | `readReg` inside the interpreter: only the heap changes, the engine invariant is kept |
| SymExec.SetReg | mg-symengine.cpp:423-459 | `writeReg` inside the interpreter keeps the invariant |
| SymExec.Load | mg-symengine.cpp:505-544 | `readMem` inside the interpreter keeps the invariant |
| SymExec.Save | mg-symengine.cpp:546-585 | `writeMem` inside the interpreter keeps the invariant |
| SymExec.Const | mg-symengine.cpp:742-743 | `new Value(CONCRETE, text)`: fails exactly when the text is not hex, otherwise a fresh literal of its number |
| SymExec.Apply1 | mg-symengine.cpp:720 | `buildop1` inside the interpreter: fails exactly on a NULL operand, otherwise a fresh node over it |
| SymExec.Apply2 | mg-symengine.cpp:871 | `buildop2` inside the interpreter, with its short-circuit failure condition |
| SymExec.Fetch | mg-symengine.cpp:1058-1068 | the source read of the default path; `None` exactly when the operand has no type |
| SymExec.Generic | mg-symengine.cpp:1057-1085 | the default two-operand path keeps the engine invariant |
| SymExec.Mov | mg-symengine.cpp:741-774 | `mov` keeps the engine invariant |
| SymExec.Lea | mg-symengine.cpp:775-799 | `lea` keeps the engine invariant |
| SymExec.Xchg | mg-symengine.cpp:800-827 | `xchg` keeps the engine invariant |
| SymExec.HybridDest | mg-symengine.cpp:829 | the fast-path test is true only for a register destination and an immediate source, and is plainly false otherwise (likewise at lines 886, 938, 998) |
| SymExec.Offset | mg-symengine.cpp:831 | the shift count: fails exactly when the text is not hex, otherwise `(int)stoul` of it (likewise at line 888) |
| SymExec.ShiftHybrid | mg-symengine.cpp:829-854 | the in-place hybrid shift keeps the engine invariant (likewise at lines 886-906) |
| SymExec.Shift | mg-symengine.cpp:828-936 | `shl`/`shr` keep the engine invariant |
| SymExec.FoldHybrid | mg-symengine.cpp:938-968 | the hybrid fold keeps the engine invariant (likewise at lines 998-1028) |
| SymExec.Logic | mg-symengine.cpp:937-996 | `and`/`or` keep the engine invariant |
| SymExec.FirstChain | mg-symengine.cpp:741-996 | the first `if` chain keeps the invariant and leaves an opcode it does not name unchanged |
| SymExec.SecondChain | mg-symengine.cpp:997-1085 | the `or` test and its default `else` keep the invariant, and everything but `or reg, imm` takes the default path unchanged |
| SymExec.TwoAsWritten | mg-symengine.cpp:741-1085 | the two-operand case as written (first chain, then second chain) keeps the invariant |
| SymExec.Two | mg-symengine.cpp:741-1085 | the two-operand case as one `else if` chain keeps the invariant |
| SymExec.Push | mg-symengine.cpp:681-702 | `push` keeps the invariant |
| SymExec.Pop | mg-symengine.cpp:703-716 | `pop` keeps the invariant |
| SymExec.Unary | mg-symengine.cpp:717-731 | other one-operand opcodes keep the invariant |
| SymExec.One | mg-symengine.cpp:676-733 | the one-operand case keeps the invariant |
| SymExec.Three | mg-symengine.cpp:1088-1106 | the three-operand case keeps the invariant |
| SymExec.Step | mg-symengine.cpp:656-671 | one loop turn, with the two-operand case as written, keeps the invariant, and a no-effect opcode or an operand count outside 1..3 changes nothing (likewise at lines 1107-1110) |
| SymExec.Run | mg-symengine.cpp:663-1113 | `symexec` as written returns 0 or 1 and keeps the invariant |
| SymExec.StepFixed | mg-symengine.cpp:997 | corrected: one loop turn with the two-operand case as one `else if` chain keeps the invariant and differs from `Step` only on the opcodes the first chain names |
| SymExec.RunFixed | mg-symengine.cpp:997 | corrected: the loop over `StepFixed` returns 0 or 1 and keeps the invariant |
| ExecProps.MovRegImm | mg-symengine.cpp:741-744 | corrected (single chain): `mov r, imm` makes `r` the literal the immediate spells and leaves every other register and memory alone |
| ExecProps.MovRegReg | mg-symengine.cpp:745-747 | corrected (single chain): `mov a, b` between 32-bit registers makes `a` denote the very value `b` does |
| ExecProps.XchgRegs | mg-symengine.cpp:801-806 | corrected (single chain): `xchg a, b` between 32-bit registers swaps the two references |
| ExecProps.XchgTwice | mg-symengine.cpp:801-806 | corrected (single chain): exchanging twice restores the registers |
| ExecProps.GenericRegs | mg-symengine.cpp:1057-1072 | `op a, b` on 32-bit registers makes `a` a fresh node `op(a, b)`, failing exactly when the old `a` is NULL, or not SYMBOL while `b` is NULL |
| ExecProps.GenericRegReg | mg-symengine.cpp:1057-1072 | the default path on two 32-bit registers succeeds exactly when the old `a` is set and, unless it is SYMBOL, so is `b`; then `a` alone changes, to a fresh node `op(a, b)`, and memory is untouched |
| ExecProps.AsWrittenAgrees | mg-symengine.cpp:997 | for opcodes the first chain does not name, the as-written and the corrected chains agree |
| ExecProps.MovImmBranch | mg-symengine.cpp:741-744 | the `mov` branch of `mov r, imm` stores one literal in `r` |
| ExecProps.FetchImm | mg-symengine.cpp:1058-1059 | an immediate source reads as a fresh literal |
| ExecProps.ImmDefault | mg-symengine.cpp:1057-1072 | the default path of `op r, imm` makes `r` the node `op(r, lit)` |
| ExecProps.AsWrittenThen | mg-symengine.cpp:997 | as written, the second chain runs on the state the first left |
| ExecProps.MovAsWritten | mg-symengine.cpp:997-1072 | as written, `mov r, imm` also runs the default path, replacing `r` by `mov(r, lit)` (the `mov` branch itself is at lines 741-744) |
| ExecProps.MovTwiceNotLit | mg-symengine.cpp:997 | so `r` ends as a `mov` node over two literals, not the literal itself |
| ExecProps.MovRegRegAsWritten | mg-symengine.cpp:997-1072 | as written, `mov a, b` also runs the default path: it fails when `b` is NULL, and otherwise `a` ends as a fresh `mov(b, b)` node rather than `b`'s value |
| ExecProps.XchgAsWritten | mg-symengine.cpp:997-1072 | as written, `xchg a, b` then runs the default path: `b` takes the old `a` and `a` becomes a fresh `xchg(b, a)` node, failing exactly when a needed operand is NULL |
| ExecProps.XchgTwiceAsWritten | mg-symengine.cpp:997 | as written, exchanging twice does not restore `a` |
| ExecProps.MovImmFixed | mg-symengine.cpp:741-744 | corrected: `mov r, imm` in the single chain stores just the literal |
| ExecProps.RunMovImm | mg-symengine.cpp:663-1113 | over a one-instruction trace `mov r, imm`, `symexec` as written leaves `mov(r, lit)` in `r`, the corrected loop the literal |
| ExecProps.RunAgrees | mg-symengine.cpp:997 | on a trace with no two-operand opcode the first chain names, `symexec` as written and corrected give the same outcome |
| ExecProps.StepTwo | mg-symengine.cpp:671-734 | a two-operand opcode with an effect goes to the two-operand case, as written in `Step` and as one chain in `StepFixed` |
| ExecProps.FirstChainHasEffect | mg-symengine.cpp:656-661 | no opcode the first chain names is in `noeffectinst` |
| ExecProps.RunOne | mg-symengine.cpp:665-1112 | on a one-instruction trace the loop's outcome is that of its one turn |
| ExecProps.PushReg | mg-symengine.cpp:685-688 | `push r` stores the register's value as four bytes at the write address |
| ExecProps.PopReg | mg-symengine.cpp:704-707 | `pop r` loads four bytes at the read address into the register |
| ExecProps.PushPop | mg-symengine.cpp:681-707 | `push a` then `pop b` reading where the push wrote moves `a`'s value to `b` when the push stored a whole range |
| ExecProps.RunShift | mg-symengine.cpp:665 | `symexec` only looks at the instructions from the current one on |
| ExecProps.RunAppend | mg-symengine.cpp:665-1112 | running `a + b` runs `a`, then `b` from where `a` left off if `a` ran to its end; a stop or failure in `a` is the whole run's |
| ExecProps.RunNoEffect | mg-symengine.cpp:656-671 | a trace of tests, compares, jumps, calls and returns leaves the state as it was |
| ExecProps.ShiftHybridEffect | mg-symengine.cpp:829-854 | the hybrid shift fast path fails exactly when the children's shift does, and otherwise changes only the heap, by that shift of the register's children (likewise at lines 886-906) |
| ExecProps.FoldHybridKeeps | mg-symengine.cpp:938-950 | the hybrid fold fails when the bit test does, and when a set immediate bit meets a SYMBOL child it only adds the immediate's literal (likewise at lines 998-1010) |
| ExecProps.FoldHybridWrites | mg-symengine.cpp:950-967 | when the bit test passes, the register becomes a fresh CONCRETE value of the folded bits and nothing else changes but the heap (likewise at lines 1010-1027) |
| SymEval.OperandsBelow | mg-symengine.cpp:171-209 | a node's operands have smaller ids (they existed before it) |
| SymEval.Inputs | mg-symengine.cpp:1258-1281 | `getInputs` collects only operation-less SYMBOL values |
| SymEval.Leaves | mg-symengine.cpp:1333-1338 | the leaves `eval` reads from the binding are operation-less, non-CONCRETE values |
| SymEval.InputsAreSymbolLeaves | mg-symengine.cpp:1258-1281 | the inputs are exactly the SYMBOL leaves; HYBRID leaves are not followed |
| SymEval.Bitwise | mg-symengine.cpp:1353-1358 | each result bit of `^`, `&`, `\|` is the gate applied to the operands' bits |
| SymEval.BitsSpell | mg-symengine.cpp:1353-1358 | the bitwise result below k bits spells the gate applied bit by bit |
| SymEval.BitsSelf | mg-symengine.cpp:1355 | `a & a` is `a` |
| SymEval.XorBitsTwice | mg-symengine.cpp:1354 | `xor` with the same operand twice gives back the low bits |
| SymEval.ShiftLeft | mg-symengine.cpp:1360 | `a << n` is a times 2^n before truncation |
| Word.ShiftRight | mg-symengine.cpp:1362 | `a >> n` never increases `a` |
| SymEval.Binary | mg-symengine.cpp:1347-1362 | the binary operators on `uint32_t`; undefined exactly for a shift of 32 or more |
| SymEval.Apply | mg-symengine.cpp:1343-1370 | an unknown tag evaluates to 1; a binary tag with both operands is the operator |
| SymEval.Eval | mg-symengine.cpp:1331-1372 | evaluating NULL fails |
| SymEval.EvalArg | mg-symengine.cpp:1343-1344 | an operand value exists only for a non-NULL slot |
| SymEval.EvalAgree | mg-symengine.cpp:1331-1372 | two bindings that agree on every leaf evaluate a formula alike |
| SymEval.EvalGrows | mg-symengine.cpp:1331-1372 | evaluation of an old formula is unaffected by later allocations |
| SymEval.EvalBuildOp2 | mg-symengine.cpp:184-194 | a node `buildop2` makes evaluates to its operator on the values of its two operands (likewise at lines 1343-1362) |
| SymEval.AddSubInverse | mg-symengine.cpp:1347-1350 | `sub` undoes `add` and `add` undoes `sub` modulo 2^32 |
| SymEval.NegIsComplement | mg-symengine.cpp:1363-1364 | `neg` (`~x + 1`) is `0 - x`: adding it to `x` gives 0 |
| SymEval.XorTwice | mg-symengine.cpp:1353-1354 | `xor` with the same operand twice is the identity |
| SymEval.ShlIsMul | mg-symengine.cpp:1351-1360 | `shl` by n is `imul` by 2^n |
| SymEval.ConExec | mg-symengine.cpp:1375-1389 | `conexec` returns 1 when the binding's keys are not exactly the inputs; NULL fails |
| SymEval.ConExecBinding | mg-symengine.cpp:1375-1389 | with the right keys, `conexec` is the formula's value, HYBRID leaves reading 0 |
| SymEval.EvalMap | mg-symengine.cpp:1331-1372 | `eval` with the binding it leaves behind: NULL fails, and no key is removed |
| SymEval.EvalArgMap | mg-symengine.cpp:1343-1344 | one operand slot of `eval`, threading the binding: no key is removed |
| SymEval.Visited | mg-symengine.cpp:1333-1344 | the leaves `eval` reads, through the first two operand slots, are operation-less and not CONCRETE |
| SymEval.VisitedAreLeaves | mg-symengine.cpp:1333-1344 | every leaf `eval` reads is a leaf of the formula |
| SymEval.EvalMapMeaning | mg-symengine.cpp:1331-1372 | `EvalMap` succeeds exactly when `Eval` does, with the same value, and leaves the binding with a 0 inserted by `(*inmap)[v]` for every leaf read that it lacked; nothing bound changes |
| SymEval.ConExecMap | mg-symengine.cpp:1375-1389 | `conexec` with the binding it leaves behind succeeds exactly when `ConExec` does, with the same value |
| SymEval.ConExecRepeat | mg-symengine.cpp:1337-1388 | a second `conexec` with the same binding returns 1 once the first has read a HYBRID leaf, and repeats the first when every leaf read was a SYMBOL |
| SymEval.BuildInMap | mg-symengine.cpp:1392-1405 | empty when the sizes differ, otherwise keyed by exactly the variables |
| SymEval.Bind | mg-symengine.cpp:1400-1402 | the insert loop adds the variables and never overwrites an existing key |
| SymEval.BindFirst | mg-symengine.cpp:1400-1402 | each variable is bound to the input at its first position |
| SymEval.BuildInMapDistinct | mg-symengine.cpp:1392-1405 | for distinct variables, the i-th variable is bound to the i-th input |
| SymEval.RegConValReads | mg-symengine.cpp:217-239 | a 32-bit register reads its recorded context value, any other name 0 |
| SymEval.Disp | mg-symengine.cpp:252 | the displacement is defined exactly when the text is hex |
| SymEval.Scale | mg-symengine.cpp:251 | the scale is defined exactly when the text has decimal digits |
| SymEval.CalcAddrNoDisp | mg-symengine.cpp:248-276 | `[r1 + r2*n]` is `[r1 + r2*n + 0x0]` |
| SymEval.CalcAddrScaledNoDisp | mg-symengine.cpp:277-292 | `[r2*n]` is `[r2*n + 0x0]` |
| SymEval.CalcAddrRegNoDisp | mg-symengine.cpp:261-298 | `[r1]` is `[r1 + 0x0]` |
| SymEval.CalcAddrSign | mg-symengine.cpp:261-267 | `[r1 - c]` and `[r1 + c]` lie 2c apart modulo 2^32 |
| SymEval.CalcAddr | mg-symengine.cpp:248-298 | no contract of its own; `SymEval.CalcAddrIsEffective` states it is the effective address of every shape |
| SymEval.CalcAddrIsEffective | mg-symengine.cpp:248-298 | for every address shape, `calcAddr` is the IA-32 effective address `base + index * scale + disp` modulo 2^32, failing exactly when a scale or displacement field does not read as a number |
| Slicer.Handled | slicer.cpp:19-24 | the opcodes the slicer interprets are not in `skipinst` |
| Slicer.AppendExtends | slicer.cpp:26-234 | appending parameters keeps the instruction's other fields |
| Slicer.ExtendsTrans | slicer.cpp:26-234 | a chain of appends keeps them too |
| Slicer.AddName | core.cpp:242-348 | a string-overload append only extends the lists |
| Slicer.AddRange | core.cpp:264-357 | a range-overload append only extends the lists |
| Slicer.Push | slicer.cpp:39-58 | `push` only extends the lists |
| Slicer.Pop | slicer.cpp:59-74 | `pop` only extends the lists |
| Slicer.Unary | slicer.cpp:75-90 | other one-operand opcodes only extend the lists |
| Slicer.One | slicer.cpp:34-92 | the one-operand case only extends the lists |
| Slicer.Move | slicer.cpp:99-136 | `mov`/`movzx` only extend the lists |
| Slicer.Lea | slicer.cpp:137-152 | `lea` never rejects the instruction |
| Slicer.Xchg | slicer.cpp:153-178 | `xchg` only extends the lists |
| Slicer.Generic | slicer.cpp:179-205 | other two-operand opcodes only extend the lists |
| Slicer.Two | slicer.cpp:93-207 | the two-operand case only extends the lists |
| Slicer.Three | slicer.cpp:208-225 | the three-operand case only extends the lists |
| Slicer.Assign | slicer.cpp:28-230 | one loop turn only extends the instruction's lists |
| Slicer.BuildParameter | slicer.cpp:26-234 | `buildParameter` returns 0 or 1 and keeps the trace's length |
| Slicer.BuildParameterExtends | slicer.cpp:26-234 | the pass changes only parameter lists, and returning 0 means every instruction was assigned |
| Slicer.BuildParameterStops | slicer.cpp:26-234 | after the first rejected instruction the later ones keep their lists |
| Slicer.SkipNoParams | slicer.cpp:29-33 | skipped opcodes and zero-operand instructions get no parameters |
| Slicer.PushReg | slicer.cpp:42-46 | `push reg`: the register's bytes are the source, the `nbyte` stack bytes at the write address the destination |
| Slicer.PushImm | slicer.cpp:40-41 | `push imm`: one immediate source and the four stack bytes at the write address |
| Slicer.MovRegMem | slicer.cpp:100-108 | `mov reg, mem`: the `nbyte` bytes at the read address flow into the register |
| Slicer.GenericRegReg | slicer.cpp:179-195 | other two-operand opcodes on registers read both and write the first |
| Slicer.PushMem | slicer.cpp:49-54 | `push mem`: the `nbyte` bytes at the read address are the source, those at the write address the destination |
| Slicer.LeaScaled | slicer.cpp:137-152 | `lea reg, [r1 + r2*n]` reads both address registers and writes the destination register |
| Slicer.LeaOther | slicer.cpp:137-152 | every other `lea` address shape is kept with no parameters |
| Slicer.GenericRegImm | slicer.cpp:179-195 | `op reg, imm` reads the immediate, then the register, and writes the register |
| Slicer.GenericMemReg | slicer.cpp:179-200 | `op mem, reg` reads the register, then the `nbyte` bytes at the read address, and writes those bytes |
| Slicer.GenericRegMem | slicer.cpp:179-195 | `op reg, mem` reads the `nbyte` bytes at the read address, then the register, and writes the register |
| Slicer.GenericMemImm | slicer.cpp:179-200 | `op mem, imm` reads the immediate, then the `nbyte` bytes at the read address, and writes those bytes |
| Slicer.GenericUnset | slicer.cpp:179-191 | an untyped source operand rejects the instruction untouched |
| Slicer.ImulThree | slicer.cpp:214-218 | `imul reg, reg, imm` adds the immediate, then op1's and op0's bytes as sources and no destination |
| Slicer.OtherThree | slicer.cpp:219-223 | every other three-operand form is rejected untouched |
| Slicer.TooManyOperands | slicer.cpp:226-229 | four or more operands are rejected |
| Slicer.EraseEach | slicer.cpp:324-330 | the lookup loop erases exactly the parameters' slots and reports whether any was present |
| Slicer.Visit | slicer.cpp:294-338 | an instruction enters the slice exactly when it has a destination in the worklist; then its destinations leave the worklist and its non-immediate sources (`src2` for `xchg`) enter; otherwise the worklist is unchanged; an `xchg` with `dst2` longer than `dst` fails |
| Slicer.SecondLookupMisses | slicer.cpp:304-310 | the second `xchg` loop, looking up `dst[i]` again, never finds anything |
| Slicer.XchgSecondDestinationIgnored | slicer.cpp:296-322 | an `xchg` whose second destination alone is in the worklist is left out |
| Slicer.Walk | slicer.cpp:291-340 | the walk keeps instructions with destinations, in trace order |
| Slicer.BackSlice | slicer.cpp:279-290 | an empty trace fails (`rbegin` of an empty list); otherwise the last instruction is always in the slice, the slice is a subsequence of the trace, and every other member has a destination |
| Slicer.SliceSubsequence | slicer.cpp:315-336 | the instructions picked at increasing positions form a subsequence of the trace, in trace order |
| Slicer.WalkKeeps | slicer.cpp:323-337 | an instruction is kept exactly when one of its destination bytes is in the worklist at its turn |
| Slicer.WalkDefined | slicer.cpp:296-310 | the walk fails only on an `xchg` with `dst2` longer than `dst` |
| VmExtract.OpcodeMap | vmextract.cpp:110-119 | the map numbers exactly the trace's mnemonics, with distinct numbers in 1..n |
| VmExtract.Number | vmextract.cpp:115-116 | numbering a new mnemonic with size + 1 keeps numbers 1..n and distinct |
| VmExtract.MnemonicsSnoc | vmextract.cpp:113 | the mnemonics of a longer trace are those before plus the new one |
| VmExtract.FirstAppearance | vmextract.cpp:113-117 | a mnemonic first seen at position k gets the count of distinct mnemonics before it, plus one |
| VmExtract.OpcodeMapDense | vmextract.cpp:110-119 | every number from 1 to n is in use |
| VmExtract.GetOpc | vmextract.cpp:121-128 | no contract of its own; `VmExtract.GetOpcUnknown` states it is 0 exactly for a mnemonic the trace lacks |
| VmExtract.GetOpcUnknown | vmextract.cpp:121-128 | `getOpc` is 0 exactly for a mnemonic the trace does not contain |
| VmExtract.JumpIds | vmextract.cpp:769-774 | the jump set holds the numbers of exactly the jump mnemonics that occur |
| VmExtract.Renumber | vmextract.cpp:763-767 | every instruction's `opc` is set from the map, nothing else changes |
| VmExtract.Preprocess | vmextract.cpp:757-776 | numbering, renumbering and jump set together; every `opc` is at least 1 |
| VmExtract.EveryMnemonicNumbered | vmextract.cpp:110-119 | every mnemonic of the trace has a number |
| VmExtract.IsJump | vmextract.cpp:130-137 | no contract of its own; `VmExtract.IsJumpIffJumpMnemonic` states it holds exactly for the jump mnemonics |
| VmExtract.IsJumpIffJumpMnemonic | vmextract.cpp:130-137 | after preprocessing, `isjump` holds exactly for the 33 jump mnemonics (likewise at lines 757-776) |
| VmExtract.Cancels | vmextract.cpp:154-161 | a pair cancels only when the mnemonics are inverse (pushad/popad, push/pop, add/sub, inc/dec) |
| VmExtract.Peephole | vmextract.cpp:151-167 | the pass removes elements in pairs |
| VmExtract.PeepholeSubsequence | vmextract.cpp:151-167 | the output is the input with elements erased, order kept |
| VmExtract.PeepholeSettled | vmextract.cpp:151-167 | a list with no adjacent cancelling pair passes unchanged |
| VmExtract.PeepholeSkipsAfterPair | vmextract.cpp:162-164 | concretely: after `push eax; pop eax` is erased, the following `pop ebx; push ebx` pair is kept although it cancels |
| VmExtract.IsRegGeneral | vmextract.cpp:179-187 | `isreg` accepts the general registers other than `esp` |
| VmExtract.AllRegOpsSpec | vmextract.cpp:192-195 | the first loop is true exactly when every instruction in the window has the opcode and an `isreg` operand |
| VmExtract.DistinctSpec | vmextract.cpp:196-202 | the second loop is true exactly when the window's operand texts are pairwise distinct and new |
| VmExtract.Check | vmextract.cpp:189-221 | `chkpush`/`chkpop` hold exactly when the seven instructions have the opcode and pairwise distinct `isreg` operands |
| VmExtract.Scan | vmextract.cpp:227-244 | saves are windows passing `chkpush` with the `esp` of the eighth instruction; restores pass `chkpop` with the `esp` of the first |
| VmExtract.ScanComplete | vmextract.cpp:227-244 | every window passing `chkpush` is a save, and every other window passing `chkpop` a restore |
| VmExtract.Pair | vmextract.cpp:246-252 | a pair is listed exactly when a save and a restore have the same stack depth |
| VmExtract.Matching | vmextract.cpp:247-251 | the inner loop pairs one save with every restore of its depth |
| VmExtract.VmExtract | vmextract.cpp:225-253 | the pairs are exactly the save and restore of equal depth that the scan found |
| VmExtract.EdgeType | vmextract.cpp:278-283 | 2/1 for a direct/indirect jump, 3 for `ret`, 4/5 for a direct/indirect call, none otherwise; a jump or call without an operand fails (likewise at lines 473-490) |
| VmExtract.FindEdge | vmextract.cpp:492-497 | the search loop stops at the first edge with the endpoints, or at the end when none has them |
| VmExtract.Record | vmextract.cpp:492-503 | recording keeps the endpoints and types of the old edges, either bumps an existing edge or appends a new one with count 1, and the total grows by one |
| VmExtract.RecordKeepsDistinct | vmextract.cpp:492-503 | recording never duplicates a pair of endpoints |
| VmExtract.RecordBumpsFirst | vmextract.cpp:492-497 | with an edge of those endpoints, only the first such edge changes, its count by one |
| VmExtract.RecordAppends | vmextract.cpp:492-503 | with no edge of those endpoints, the new edge `(from, to, jumpty, 1)` is appended at the end |
| VmExtract.Edges | vmextract.cpp:467-504 | the total count grows by exactly the number of control transfers |
| VmExtract.EdgesKeepDistinct | vmextract.cpp:467-504 | the edge list never holds two edges with the same endpoints |
| VmExtract.EdgesCover | vmextract.cpp:467-504 | every transfer has an edge with its endpoints, and an edge keeps the type it was first recorded with |
| Parser.Upto | parser.cpp:187 | the position of the first delimiter, or the end |
| Parser.Getline | parser.cpp:177 | `getline`: a failed stream leaves the string alone; otherwise the text up to the delimiter, which is consumed, and the stream fails exactly when there was none (likewise at lines 187, 191, 195, 199) |
| Parser.GetlineSplit | parser.cpp:187 | reading up to a delimiter that is there yields the text before it |
| Parser.GetlineLast | parser.cpp:215 | reading the last field without delimiter ends the stream |
| Parser.Stoul | parser.cpp:188 | `stoul(s, 0, 16)` into a 32-bit field: fails exactly on non-hex text, truncates to 32 bits (likewise at line 208) |
| Parser.SearchLeftmost | parser.cpp:37-81 | `regex_search` finds the match at the leftmost matching position, nothing when the pattern matches nowhere |
| Parser.FirstFound | parser.cpp:37-81 | the first pattern in order that occurs |
| Parser.CreateAddrOperand | parser.cpp:18-84 | an address operand has five fields, no segment and bit 0, and is MEM or the default operand |
| Parser.FirstFoundAddr | parser.cpp:37-81 | the shape tested first is the first found in the order 7, 4, 5, 6, 3, 1, 2 |
| Parser.AddrTagOfShape | parser.cpp:37-81 | the tag is the first shape's; no shape gives the default operand |
| Parser.AddrTagIsFirstShape | parser.cpp:37-81 | the operand is MEM with the first found shape's tag exactly when some shape occurs |
| Parser.CreateDataOperand | parser.cpp:86-117 | a data operand has five fields and no segment |
| Parser.MatchedName | parser.cpp:89-92 | what a register pattern finds is a name of its class, and the immediate pattern a `0x` literal |
| Parser.DataPriority | parser.cpp:96-114 | 32-bit register, else 16-bit, else 8-bit, else immediate, first found in that order, widths 32/16/8/32; none gives the default operand |
| Parser.ContainsAt | parser.cpp:130 | a substring found at a position counts as contained |
| Parser.PtrIsBare | parser.cpp:139-147 | a sized `ptr [..]` match implies the bare `ptr [..]` pattern also matches |
| Parser.BareInside | parser.cpp:139-147 | the bare match sits right after the size keyword |
| Parser.Classify | parser.cpp:119-157 | text with "ptr" is neither a register nor an immediate, has width 32/16/8, and has `issegaddr` exactly for the `dword ptr fs:[..]` form; without "ptr" it is a data operand; a "ptr" text that no pattern matches fails, since the operand pointer is never set |
| Parser.CreateOperandAsWritten | parser.cpp:119-157 | as written, a 16-bit memory operand only needs "word ptr [" somewhere in the text |
| Parser.CreateOperand | parser.cpp:119-157 | corrected: a 16-bit (8-bit) memory operand has "word" ("byte") as a whole keyword |
| Parser.AddrPriority | parser.cpp:119-157 | text with "ptr" is tried against the `fs:` dword, dword, word, byte and bare patterns in that order, with widths 32/32/16/8/32; the first match gives the address operand, and it fails exactly when the bare pattern misses too |
| Parser.QwordAsWritten | parser.cpp:139-141 | as written, "qword ptr [eax]" is read as a 16-bit access |
| Parser.QwordCorrected | parser.cpp:145-147 | corrected, "qword ptr [eax]" falls to the bare `ptr` form and is 32 bits wide |
| Parser.ParsedOperands | parser.cpp:163-165 | with `createOperand` as written, operands parse exactly when each text does, one operand per text |
| Parser.FillOperands | parser.cpp:159-168 | with `createOperand` as written, `oprd[i]` is filled for exactly i < `oprnum`, each from its text; more than three operands overflow the array; nothing else changes |
| Parser.ParseOperands | parser.cpp:159-168 | every instruction of the list is filled the same way, with `createOperand` as written |
| Parser.FillQword | parser.cpp:159-168 | as written, filling a lone `qword ptr [eax]` operand gives a 16-bit address of `eax` |
| Parser.Split | parser.cpp:198-202 | the pieces between delimiters, at least one, none containing the delimiter |
| Parser.SplitFirst | parser.cpp:198-202 | splitting `a + d + b` gives `a` then the pieces of `b` |
| Parser.SplitJoin | parser.cpp:198-202 | splitting the join of delimiter-free pieces gives them back |
| Parser.JoinSplit | parser.cpp:198-202 | joining the pieces gives back the text |
| Parser.GetlinePending | parser.cpp:198-202 | one `getline` takes off the first pending piece |
| Parser.Keep | parser.cpp:200-201 | the kept pieces hold a non-space character and are pieces of the input |
| Parser.KeepAll | parser.cpp:200-201 | keeping changes nothing when every piece holds a non-space character |
| Parser.OperandTextsArePieces | parser.cpp:194-203 | the operand texts are the `,`-separated pieces after the mnemonic that hold a non-space character |
| Parser.ReadFields | parser.cpp:205-215 | the field loop yields exactly n numbers |
| Parser.ReadFieldsStale | parser.cpp:198-215 | once the line has run out, each further field repeats the number read last |
| Parser.ReadFieldsCsv | parser.cpp:205-215 | fields written in hex with trailing commas are read back |
| Parser.ParseLine | parser.cpp:180-217 | an instruction gets the given id, `oprnum` equal to its operand texts, eight context registers, a mnemonic without spaces, an address without `;`, and operand texts with a non-space and no comma |
| Parser.NonEmpty | parser.cpp:178 | the lines kept are non-empty lines of the input |
| Parser.ParseLinesEach | parser.cpp:176-218 | the lines parse exactly when each does, the k-th line giving the instruction with id num + k |
| Parser.TraceIsLines | parser.cpp:171-219 | reading the file line by line is parsing its non-empty `\n`-separated lines with consecutive ids |
| Parser.ParseLineSteps | parser.cpp:180-216 | a line parses to the instruction assembled from its address, mnemonic, operand texts and fields, read in that order |
| Parser.ParseLinesAll | parser.cpp:176-218 | lines that each parse to an instruction parse together to those instructions |
| Parser.TraceIds | parser.cpp:174-184 | one instruction per non-empty line, ids 1, 2, ... in line order |
| Parser.NotInJoin | parser.cpp:194-202 | a character absent from the pieces and distinct from the delimiter is absent from their join |
| Parser.AsmRoundTrip | parser.cpp:194-202 | the disassembly text built from a mnemonic and operand texts splits back into them |
| Parser.AsmSeparators | parser.cpp:191 | such a text holds no `;` and no newline |
| Parser.LineRoundTrip | parser.cpp:180-216 | a line written in the trace format parses back to the very instruction (likewise at lines 247-258) |
| Parser.StoulHex | parser.cpp:188 | `stoul` reads back the hex spelling of a 32-bit number (likewise at line 208) |
| Parser.CsvLine | parser.cpp:253-255 | the context fields contain no newline |
| Parser.RenderLine | parser.cpp:252-255 | a rendered line contains no newline |
| Parser.Rendered | parser.cpp:247-258 | each rendered line is the trace-format line of its instruction |
| Parser.TraceTextLines | parser.cpp:247-258 | the text of a trace splits into its rendered lines |
| Parser.ParseTrace | parser.cpp:171-219 | no contract of its own; `Parser.TraceRoundTrip` states that it reads back any trace written in the trace format |
| Parser.TraceRoundTrip | parser.cpp:171-219 | a trace written in the trace format, ids 1..n, parses back to the same instructions (likewise at lines 247-258) |

## Left out

- The Pin tracer, the `main` drivers of `main.cpp`, `slicer.cpp` and `vmextract.cpp`, and file opening: they are I/O plumbing. The trace file is a string.
- Printing and file output are left out because they produce text only:
  - `traverse`/`traverse2`, `outputFormula`, `outputCVC*`, `outputChkEqCVC`, `outputBitCVC`;
  - `dumpreg`, `print*`, `showMemInput`, `printInstParameter`, `printTrace*` (whose line format is used only to state the parser's round trip);
  - `printInstlist`, `printFuncmap`, `outputvm`;
  - the `CFG` display, `checkConsist` and `showTrace` functions.
- `getAllOutput`, `getInputVector` and `getValueName` are left out. The only thing they add to `getInputs` is an ordering by pointer value, which has no counterpart in an id-indexed heap.
- `SEEngine::init` (both overloads) is left out. The instruction range is the sequence passed to `SymExec.Run`, and the initial registers are the engine passed in.
- `buildFuncList`, `countindjumps` and `getOpcName` are left out. They are reporting aids outside the extraction.
- CFG basic-block splitting (vmextract.cpp:356-461) and `compressCFG` are left out. The splitting's case 3 is marked unfinished in the source, and the compression uses iterators that may be uninitialised. The edge loop is modelled starting from a given edge list.
- `std::regex` is modelled only for the fixed patterns the parser uses. The greedy `.*` of `ptr \[(.*)\]` is modelled as "up to the last `]`".
- The parts of `stoul` and `stoi` the trace never exercises are left out: a sign prefix for `stoul`, and base detection. `Hex.ParseHex` reads optional leading spaces, an optional `0x`/`0X` and a run of hex digits.
- Hex.ParseDec: its own contract only bounds the result. What it reads is stated by `Hex.DecRenderParse` (any decimal spelling, signed or not, in the `int` range) and `Hex.ParseDecDigit`.
- Hex.ParseHex: its own contract only bounds the result. What it reads is stated by `Hex.RenderParse` and `Hex.RenderParseBare`: it reads back the hex spelling of any number below 2^64.
- Strings that only hold a number are kept as the number:
  - `conval` and the mask and shift texts;
  - `Value::len` for computed nodes;
  - the never-initialised `brange` of computed and SYMBOL values, which is kept at 0.
- Memory reclamation is left out. Nodes are never freed, and ids are never reused.
- Each C++ `Value*` is a heap id, and each mutation through a pointer is an explicit heap update. The `shl`/`shr` in-place edits of shared children are included.
- `Value::len` of a fresh memory symbol is the byte count, as in the source. Its meaning (bytes, while other values use bits) is not checked against any use.
- SymEval.Eval: its own contract states only that NULL fails. Its values are stated by `EvalBuildOp2`, `EvalAgree`, `EvalGrows`, `ConExecBinding` and the operator lemmas. It returns no binding; the 0 that `(*inmap)[v]` inserts for a leaf the binding lacks is modelled by `SymEval.EvalMap`, related to it by `SymEval.EvalMapMeaning`.
- SymEval.ConExec: returns the value only. The binding it leaves behind, and the 1 a second call then returns, are stated by `SymEval.ConExecMap` and `SymEval.ConExecRepeat`. An evaluation that fails part-way leaves no binding in the model.
- `SymExec.Generic`, `SymExec.Mov`, `SymExec.Lea`, `SymExec.Xchg`, `SymExec.ShiftHybrid`, `SymExec.Shift`, `SymExec.FoldHybrid`, `SymExec.Logic`, `SymExec.SecondChain`, `SymExec.Push`, `SymExec.Pop`, `SymExec.Unary`, `SymExec.One`, `SymExec.Three`, `SymExec.Two`, `SymExec.TwoAsWritten`, `SymExec.Step`, `SymExec.StepFixed`, `SymExec.Run`, `SymExec.RunFixed`:
  - their own contracts state only that the engine invariant is kept (and, for `SecondChain` and `StepFixed`, where they agree with another member);
  - their effects are proved in `ExecProps` for 32-bit register operands and `push`/`pop`: `GenericRegReg`, `MovRegImm`, `MovRegReg`, `XchgRegs`, `PushReg`, `PopReg`; as written `MovAsWritten`, `MovRegRegAsWritten`, `XchgAsWritten`;
  - the hybrid fast paths' effects are `ExecProps.ShiftHybridEffect`, `ExecProps.FoldHybridKeeps` and `ExecProps.FoldHybridWrites`, stated in terms of the `HybridOps` functions;
  - whole runs are related by `ExecProps.RunMovImm` (where as written and corrected differ) and `ExecProps.RunAgrees` (where they agree);
  - memory and sub-register operand forms of the handlers have no effect lemma.
- SymExec.FirstChain: its contract states only that the invariant is kept and that an opcode it does not name changes nothing. Its effects are those of the handlers it dispatches to, listed in the `SymExec` entry above; `ExecProps.MovAsWritten`, `ExecProps.MovRegRegAsWritten` and `ExecProps.XchgAsWritten` state them for the register forms.
- `SymEval.CalcAddr` has no contract of its own. `SymEval.CalcAddrIsEffective` relates every shape to one effective-address definition (`base + index * scale + disp` modulo 2^32). It assumes the sign fields are `+` or `-`, which is all the parser's patterns produce; the source's error path for another sign (print, return 0) is modelled but not covered by that lemma.
- `SymEval.Formula`: the evaluator requires the heap it is given to satisfy it. `SymEval.EvalBuildOp2` and `SymValue.WithConstWf` show that `buildop2` and a fresh literal keep it; that a whole `symexec` run keeps it is not proved.
- `Slicer.Push`, `Slicer.Move`, `Slicer.Lea`, `Slicer.Xchg`, `Slicer.Generic`, `Slicer.Pop`, `Slicer.Unary`: their contracts state only that the parameter lists are extended. The exact lists are proved for:
  - `push` (`Slicer.PushReg`, `Slicer.PushImm`, `Slicer.PushMem`);
  - `mov reg, mem` (`Slicer.MovRegMem`);
  - `lea` (`Slicer.LeaScaled`, `Slicer.LeaOther`);
  - the generic opcodes with a register or memory destination (`Slicer.GenericRegReg`, `Slicer.GenericRegImm`, `Slicer.GenericRegMem`, `Slicer.GenericMemReg`, `Slicer.GenericMemImm`, `Slicer.GenericUnset`);
  - `imul` with three operands (`Slicer.ImulThree`).

  `xchg`, `pop`, the other one-operand opcodes, the other `mov` forms and the generic `op mem, mem` (not a valid IA-32 encoding) have no exact-list lemma.
- Slicer.One: its contract states only that the lists are extended, as for the one-operand handlers it dispatches to (`Push`, `Pop`, `Unary`); the exact lists are those of the handler lemmas above.
- Slicer.Two: its contract states only that the lists are extended, as for the two-operand handlers it dispatches to (`Move`, `Lea`, `Xchg`, `Generic`); the exact lists are those of the handler lemmas above.
- Slicer.Assign: its contract states only that the lists are extended. `Slicer.SkipNoParams`, `Slicer.GenericRegReg` and `Slicer.ImulThree` state its exact result for skipped opcodes, two-register generic opcodes and `imul reg, reg, imm`; other forms go through the handler lemmas above.
- VmExtract.Check: `next(it, 7)` near the end of the list is taken as libstdc++ computes it (the list is circular through its end node), so computing it is not a failure. The window is read in order: an instruction that fails the test gives `Ok(false)`, and only reading the end node gives `Abort`.
- `VmExtract.Peephole`: its contract states the pairwise removal. Which pairs are erased is stated through `VmExtract.Cancels`, `VmExtract.PeepholeSubsequence`, `VmExtract.PeepholeSettled` and `VmExtract.PeepholeSkipsAfterPair`, not as one characterisation.
- `Slicer.Visit`, `Slicer.WalkKeeps`: the slicer's `xchg` handling is modelled as written:
  - the second destination loop looks up `dst[i]`;
  - the `isdep2` branch inserts `src[0]`.

  `Slicer.SecondLookupMisses` shows that this branch never fires. The intended pairing of `src`/`src2` with `dst`/`dst2` is ambiguous, so no corrected version is given.

## Findings

| source | as written | input that shows it | evidently intended | confidence | as-written member | corrected member |
|---|---|---|---|---|---|---|
| mg-symengine.cpp:997 | `} if (it->opcstr == "or")` starts a new statement. So every two-operand opcode the first chain handled (`mov`, `lea`, `xchg`, `shl`, `shr`, `and`) also runs the final `else`, the default `buildop2` path. | `mov eax, 0x1` on any engine: `eax` ends as the node `mov(lit, lit)` instead of the literal `0x1` | `else if`, so each opcode takes exactly one path and `mov eax, 0x1` leaves the literal in `eax` | high; not executed | SymExec.TwoAsWritten, SymExec.Step, SymExec.Run, ExecProps.MovAsWritten, ExecProps.MovTwiceNotLit, ExecProps.MovRegRegAsWritten, ExecProps.XchgAsWritten, ExecProps.XchgTwiceAsWritten, ExecProps.RunMovImm | SymExec.Two, SymExec.StepFixed, SymExec.RunFixed, ExecProps.MovRegImm, ExecProps.MovImmFixed, ExecProps.MovRegReg, ExecProps.XchgRegs, ExecProps.XchgTwice |
| parser.cpp:139-144 | `regex_search` with `word ptr \[(.*)\]` also matches inside `qword ptr [`, and `byte ptr \[` inside `tbyte ptr [`. So wider accesses are classified as 16-bit and 8-bit. | the operand text `qword ptr [eax]` gives `bit = 16` | the size keyword matched as a whole word, so `qword ptr [eax]` is not a 16-bit access; it falls to the bare `ptr` form (32) | medium; not executed | Parser.CreateOperandAsWritten, Parser.QwordAsWritten, Parser.FillQword | Parser.CreateOperand, Parser.QwordCorrected |
