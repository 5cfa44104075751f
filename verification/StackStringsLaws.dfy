/**
  What stack-string detection (src/idamesh/domain/services/stack_strings.py) finds, said about the
  instructions: which byte each of them stores where, and which stretches of last bytes are strings.
*/
module StackStringsLaws {
  import opened Common
  import opened Decoded
  import DataFlow
  import opened DataFlowLaws
  import opened StackStrings
  import Strings

  // ---------------------------------------------------------------- one store

  /** Byte `j` of the value, the lowest being byte 0; a negative value counts as two's complement. */
  function ByteOf(value: int, j: nat): int
    decreases j
  {
    if j == 0 then value % 256 else ByteOf(value / 256, j - 1)
  }

  lemma SplitRemainder(v: int, m: int)
    requires m >= 1
    ensures v % (256 * m) % 256 == v % 256 && v % (256 * m) / 256 == v / 256 % m
  {
    var q, r := v / 256, v % 256;
    var s, t := q / m, q % m;
    assert v == 256 * (m * s + t) + r;
    var low := 256 * t + r;
    assert 0 <= low < 256 * m;
    Shift(m, s);
    assert v == (256 * m) * s + low;
    UniqueRemainder(v, 256 * m, s, low);
  }

  lemma Shift(m: int, s: int)
    ensures 256 * (m * s) == (256 * m) * s
  {
  }

  lemma UniqueRemainder(v: int, m: int, s: int, low: int)
    requires m >= 1 && v == m * s + low && 0 <= low < m
    ensures v % m == low
  {
    var q, e := v / m, v % m;
    assert m * (s - q) == e - low;
    assert s - q >= 1 ==> m * (s - q) >= m;
    assert s - q <= -1 ==> m * (s - q) <= -m;
  }

  lemma {:induction false} BytesOfDigits(v: int, width: nat, j: nat)
    requires j < width
    ensures Digits(v % Power256(width), width)[j] == ByteOf(v, j)
    decreases width
  {
    SplitRemainder(v, Power256(width - 1));
    if j > 0 {
      BytesOfDigits(v / 256, width - 1, j - 1);
    }
  }

  /** The instruction stores an immediate of `width` bytes to the plain stack slot at `base` + `disp`. */
  ghost predicate IsStoreTo(insn: Instruction, base: Register, disp: int, width: int, value: int) {
    && insn.mnemonic in {Mov, Movb, Movw, Movd, Movq} && |insn.operands| >= 2
    && exists dest, src :: IsOperand(insn, 0, dest) && IsOperand(insn, 1, src)
         && dest.isWrite && dest.base == Some(base) && Names(dest, DataFlow.InStack(disp))
         && src.kind == ImmKind && src.value == Some(value) && IsWidth(dest.size, src.size, width)
  }

  /** The first of the two sizes that is positive, or one. */
  predicate IsWidth(dest: Option<int>, src: Option<int>, width: int) {
    if dest.Some? && dest.value > 0 then width == dest.value
    else if src.Some? && src.value > 0 then width == src.value
    else width == 1
  }

  lemma OperandsAreNumbered(insn: Instruction)
    ensures forall op :: OperandAt(insn, 0) == Some(op) <==> IsOperand(insn, 0, op)
    ensures forall op :: OperandAt(insn, 1) == Some(op) <==> IsOperand(insn, 1, op)
  {
    forall op ensures OperandAt(insn, 0) == Some(op) <==> IsOperand(insn, 0, op) { OperandIsNumbered(insn, 0, op); }
    forall op ensures OperandAt(insn, 1) == Some(op) <==> IsOperand(insn, 1, op) { OperandIsNumbered(insn, 1, op); }
  }

  /** An instruction that stores as described is recognized, with its base, its slot and its bytes. */
  lemma StoreIsFound(insn: Instruction, base: Register, disp: int, width: int, value: int)
    requires IsStoreTo(insn, base, disp, width, value)
    ensures AsStore(insn).Some? && AsStore(insn).value.0 == base && AsStore(insn).value.1.ea == insn.ea
    ensures IsData(AsStore(insn).value.1, disp, width, value)
  {
    var dest, src :| IsOperand(insn, 0, dest) && IsOperand(insn, 1, src)
         && dest.isWrite && dest.base == Some(base) && Names(dest, DataFlow.InStack(disp))
         && src.kind == ImmKind && src.value == Some(value) && IsWidth(dest.size, src.size, width);
    OperandsAreNumbered(insn);
    SlotIsNamed(dest, disp);
    hide OperandAt, IsOperand, StackSlot, Names, IsStoreTo, LittleEndian;
    LittleEndianData(value, width, StoreWidth(dest, src));
  }

  /** And nothing else is. */
  lemma FoundIsStore(insn: Instruction) returns (disp: int, width: int, value: int)
    requires AsStore(insn).Some?
    ensures IsStoreTo(insn, AsStore(insn).value.0, disp, width, value)
  {
    var dest, src := OperandAt(insn, 0).value, OperandAt(insn, 1).value;
    OperandsAreNumbered(insn);
    SlotIsNamed(dest, StackSlot(dest).value);
    hide OperandAt, IsOperand, StackSlot, Names, LittleEndian;
    disp, width, value := StackSlot(dest).value, StoreWidth(dest, src), src.value.value;
  }

  lemma SlotIsNamed(op: Operand, disp: int)
    ensures StackSlot(op) == Some(disp) <==> Names(op, DataFlow.InStack(disp))
  {
  }

  /** The store lays down the bytes of the value from `disp` on. */
  ghost predicate IsData(store: Store, disp: int, width: int, value: int) {
    && store.disp == disp && |store.data| == width
    && forall j :: 0 <= j < width ==> store.data[j] == ByteOf(value, j)
  }

  lemma LittleEndianData(value: int, width: int, w: int)
    requires w == width >= 1
    ensures |LittleEndian(value, w)| == width && forall j :: 0 <= j < width ==>
      LittleEndian(value, w)[j] == ByteOf(value, j)
  {
    forall j | 0 <= j < width ensures LittleEndian(value, w)[j] == ByteOf(value, j) {
      BytesOfDigits(value, width, j);
    }
  }

  // ---------------------------------------------------------------- the memory

  /** Instruction `k` stores the byte at `base` + `pos`. */
  ghost predicate StoresByte(insns: seq<Instruction>, base: Register, pos: int, k: int, byte: int) {
    && 0 <= k < |insns|
    && exists disp, width, value ::
         IsStoreTo(insns[k], base, disp, width, value) && disp <= pos < disp + width
           && byte == ByteOf(value, pos - disp)
  }

  ghost predicate StoresNothing(insns: seq<Instruction>, base: Register, pos: int, k: int) {
    forall byte :: !StoresByte(insns, base, pos, k, byte)
  }

  /** No later instruction stores there. */
  ghost predicate IsLastByte(insns: seq<Instruction>, base: Register, pos: int, k: int, byte: int) {
    StoresByte(insns, base, pos, k, byte) && forall n, b :: k < n ==> !StoresByte(insns, base, pos, n, b)
  }

  predicate IsFoundAt(insns: seq<Instruction>, base: Register, pos: int, k: nat)
    requires k < |insns|
  {
    AsStore(insns[k]).Some? && AsStore(insns[k]).value.0 == base && Covers(AsStore(insns[k]).value.1, pos)
  }

  function FoundByte(insns: seq<Instruction>, base: Register, pos: int, k: nat): int
    requires k < |insns| && IsFoundAt(insns, base, pos, k)
  {
    var store := AsStore(insns[k]).value.1;
    store.data[pos - store.disp]
  }

  lemma StoresByteMeans(insns: seq<Instruction>, base: Register, pos: int, k: nat)
    requires k < |insns|
    ensures IsFoundAt(insns, base, pos, k) ==> StoresByte(insns, base, pos, k, FoundByte(insns, base, pos, k))
    ensures forall byte :: StoresByte(insns, base, pos, k, byte) ==>
      IsFoundAt(insns, base, pos, k) && byte == FoundByte(insns, base, pos, k)
  {
    hide AsStore, IsStoreTo, ByteOf;
    if IsFoundAt(insns, base, pos, k) {
      var disp, width, value := FoundIsStore(insns[k]);
      StoreIsFound(insns[k], base, disp, width, value);
    }
    forall byte | StoresByte(insns, base, pos, k, byte)
      ensures IsFoundAt(insns, base, pos, k) && byte == FoundByte(insns, base, pos, k)
    {
      var disp, width, value :|
        IsStoreTo(insns[k], base, disp, width, value) && disp <= pos < disp + width
          && byte == ByteOf(value, pos - disp);
      StoreIsFound(insns[k], base, disp, width, value);
    }
  }

  /** The memory behind a base register holds, at each place, the last byte stored there. */
  lemma {:induction false} MemoryIsSpelledOut(insns: seq<Instruction>, base: Register, pos: int)
    ensures var mem := MemoryAfter(StoresOf(insns, base));
      && (pos in mem <==> exists k, byte :: IsLastByte(insns, base, pos, k, byte))
      && forall k, byte :: IsLastByte(insns, base, pos, k, byte) ==>
           0 <= k < |insns| && pos in mem && mem[pos].byte == byte && mem[pos].ea == insns[k].ea
    decreases |insns|
  {
    hide *;
    if insns == [] {
      NoBytes(insns, base, pos);
    } else {
      var init, n := insns[..|insns| - 1], |insns| - 1;
      MemoryIsSpelledOut(init, base, pos);
      MemoryGrows(insns, base, pos);
      var mem := MemoryAfter(StoresOf(insns, base));
      forall k, byte | IsLastByte(insns, base, pos, k, byte)
        ensures 0 <= k < |insns| && pos in mem && mem[pos].byte == byte && mem[pos].ea == insns[k].ea
      {
        LastByteMoves(insns, base, pos, k, byte);
      }
      if pos in mem {
        var k, byte := LastByteOf(insns, base, pos);
      }
    }
  }

  /** Some instruction is the last to store at a place that holds a byte. */
  lemma LastByteOf(insns: seq<Instruction>, base: Register, pos: int) returns (k: int, byte: int)
    requires insns != [] && pos in MemoryAfter(StoresOf(insns, base))
    requires var init := insns[..|insns| - 1];
      pos in MemoryAfter(StoresOf(init, base)) <==> exists k, byte :: IsLastByte(init, base, pos, k, byte)
    ensures IsLastByte(insns, base, pos, k, byte)
  {
    hide *;
    var init, n := insns[..|insns| - 1], |insns| - 1;
    MemoryGrows(insns, base, pos);
    SomethingOrNothing(insns, base, pos, n);
    if byte' :| StoresByte(insns, base, pos, n, byte') {
      k, byte := n, byte';
    } else {
      k, byte :| IsLastByte(init, base, pos, k, byte);
    }
    LastByteMoves(insns, base, pos, k, byte);
  }

  lemma SomethingOrNothing(insns: seq<Instruction>, base: Register, pos: int, k: int)
    ensures StoresNothing(insns, base, pos, k) <==> !exists byte :: StoresByte(insns, base, pos, k, byte)
  {
    hide StoresByte;
  }

  lemma NoBytes(insns: seq<Instruction>, base: Register, pos: int)
    requires insns == []
    ensures pos !in MemoryAfter(StoresOf(insns, base))
    ensures forall k, byte :: !IsLastByte(insns, base, pos, k, byte)
  {
  }

  /** What the last instruction does to the byte at `pos`. */
  lemma MemoryGrows(insns: seq<Instruction>, base: Register, pos: int)
    requires insns != []
    ensures var n := |insns| - 1;
      var mem, before := MemoryAfter(StoresOf(insns, base)), MemoryAfter(StoresOf(insns[..n], base));
      && (forall byte :: StoresByte(insns, base, pos, n, byte) ==>
            pos in mem && mem[pos].byte == byte && mem[pos].ea == insns[n].ea)
      && (StoresNothing(insns, base, pos, n) ==>
            (pos in mem <==> pos in before) && (pos in mem && pos in before ==> mem[pos] == before[pos]))
  {
    StoresByteMeans(insns, base, pos, |insns| - 1);
    MemoryUnfolds(insns, base, pos);
    hide StoresByte, IsFoundAt, FoundByte, MemoryAfter, StoresOf;
  }

  lemma MemoryUnfolds(insns: seq<Instruction>, base: Register, pos: int)
    requires insns != []
    ensures var n := |insns| - 1;
      var mem, before := MemoryAfter(StoresOf(insns, base)), MemoryAfter(StoresOf(insns[..n], base));
      if IsFoundAt(insns, base, pos, n)
      then pos in mem && mem[pos].byte == FoundByte(insns, base, pos, n) && mem[pos].ea == insns[n].ea
      else (pos in mem <==> pos in before) && (pos in mem && pos in before ==> mem[pos] == before[pos])
  {
    hide *;
    var n := |insns| - 1;
    var stores := StoresOf(insns[..n], base);
    StoresGrow(insns, base);
    FoundMeans(insns, base, pos, n);
    if AsStore(insns[n]).Some? && AsStore(insns[n]).value.0 == base {
      OneMoreStore(stores, AsStore(insns[n]).value.1, pos);
    }
  }

  lemma StoresGrow(insns: seq<Instruction>, base: Register)
    requires insns != []
    ensures var found, stores := AsStore(insns[|insns| - 1]), StoresOf(insns[..|insns| - 1], base);
      StoresOf(insns, base) == if found.Some? && found.value.0 == base then stores + [found.value.1] else stores
  {
    hide AsStore;
    assert StoresOf(insns[..|insns| - 1], base) + [] == StoresOf(insns[..|insns| - 1], base);
  }

  lemma FoundMeans(insns: seq<Instruction>, base: Register, pos: int, n: nat)
    requires n < |insns|
    ensures var found := AsStore(insns[n]);
      && (IsFoundAt(insns, base, pos, n) <==> found.Some? && found.value.0 == base && Covers(found.value.1, pos))
      && (IsFoundAt(insns, base, pos, n) ==>
            CellOf(found.value.1, pos) == Cell(FoundByte(insns, base, pos, n), insns[n].ea))
  {
    var found := AsStore(insns[n]);
    if found.Some? {
      var disp, width, value := FoundIsStore(insns[n]);
      StoreIsFound(insns[n], found.value.0, disp, width, value);
    }
    hide AsStore, IsStoreTo;
  }

  lemma OneMoreStore(stores: seq<Store>, s: Store, pos: int)
    ensures var mem, before := MemoryAfter(stores + [s]), MemoryAfter(stores);
      && (Covers(s, pos) ==> pos in mem && mem[pos] == CellOf(s, pos))
      && (!Covers(s, pos) ==> (pos in mem <==> pos in before)
                              && (pos in mem && pos in before ==> mem[pos] == before[pos]))
  {
    assert (stores + [s])[..|stores|] == stores;
    LayAt(MemoryAfter(stores), s, |s.data|, pos);
  }

  lemma BytesInPrefix(insns: seq<Instruction>, base: Register, pos: int, k: int, byte: int)
    requires insns != []
    ensures k < |insns| - 1 ==>
      StoresByte(insns, base, pos, k, byte) == StoresByte(insns[..|insns| - 1], base, pos, k, byte)
  {
    hide IsStoreTo, ByteOf;
  }

  lemma LastByteMoves(insns: seq<Instruction>, base: Register, pos: int, k: int, byte: int)
    requires insns != []
    ensures var init, n := insns[..|insns| - 1], |insns| - 1;
      IsLastByte(insns, base, pos, k, byte) <==>
        (StoresByte(insns, base, pos, n, byte) && k == n)
        || (IsLastByte(init, base, pos, k, byte) && StoresNothing(insns, base, pos, n))
    ensures IsLastByte(insns[..|insns| - 1], base, pos, k, byte) ==> 0 <= k < |insns| - 1
  {
    hide *;
    var init, n := insns[..|insns| - 1], |insns| - 1;
    LastIsInRange(init, base, pos, k, byte);
    LastIsInRange(insns, base, pos, k, byte);
    if k == n {
      EndIsLast(insns, base, pos, byte);
    } else if IsLastByte(insns, base, pos, k, byte) {
      StillLast(insns, base, pos, k, byte);
    } else if IsLastByte(init, base, pos, k, byte) && StoresNothing(insns, base, pos, n) {
      LastAgain(insns, base, pos, k, byte);
    }
  }

  lemma LastIsInRange(insns: seq<Instruction>, base: Register, pos: int, k: int, byte: int)
    ensures IsLastByte(insns, base, pos, k, byte) ==> 0 <= k < |insns|
  {
    BytesInRange(insns, base, pos);
    hide StoresByte;
  }

  lemma EndIsLast(insns: seq<Instruction>, base: Register, pos: int, byte: int)
    requires insns != []
    ensures IsLastByte(insns, base, pos, |insns| - 1, byte) <==> StoresByte(insns, base, pos, |insns| - 1, byte)
  {
    BytesInRange(insns, base, pos);
    hide StoresByte;
  }

  lemma StillLast(insns: seq<Instruction>, base: Register, pos: int, k: int, byte: int)
    requires IsLastByte(insns, base, pos, k, byte) && k < |insns| - 1
    ensures IsLastByte(insns[..|insns| - 1], base, pos, k, byte) && StoresNothing(insns, base, pos, |insns| - 1)
  {
    var init := insns[..|insns| - 1];
    BytesInRange(init, base, pos);
    BytesInPrefix(insns, base, pos, k, byte);
    hide StoresByte;
    forall j, b | k < j ensures !StoresByte(init, base, pos, j, b) {
      BytesInPrefix(insns, base, pos, j, b);
    }
  }

  lemma LastAgain(insns: seq<Instruction>, base: Register, pos: int, k: int, byte: int)
    requires insns != [] && k < |insns| - 1
    requires IsLastByte(insns[..|insns| - 1], base, pos, k, byte) && StoresNothing(insns, base, pos, |insns| - 1)
    ensures IsLastByte(insns, base, pos, k, byte)
  {
    BytesInPrefix(insns, base, pos, k, byte);
    forall j, b | k < j ensures !StoresByte(insns, base, pos, j, b) {
      NoneLater(insns, base, pos, k, byte, j, b);
    }
    hide StoresByte, StoresNothing;
  }

  lemma NoneLater(insns: seq<Instruction>, base: Register, pos: int, k: int, byte: int, j: int, b: int)
    requires insns != [] && k < j
    requires IsLastByte(insns[..|insns| - 1], base, pos, k, byte) && StoresNothing(insns, base, pos, |insns| - 1)
    ensures !StoresByte(insns, base, pos, j, b)
  {
    hide *;
    if StoresByte(insns, base, pos, j, b) {
      ByteInRange(insns, base, pos, j, b);
      NothingMeans(insns, base, pos, |insns| - 1, b);
      BytesInPrefix(insns, base, pos, j, b);
      LastMeans(insns[..|insns| - 1], base, pos, k, byte, j, b);
    }
  }

  lemma LastMeans(insns: seq<Instruction>, base: Register, pos: int, k: int, byte: int, j: int, b: int)
    requires IsLastByte(insns, base, pos, k, byte) && k < j
    ensures !StoresByte(insns, base, pos, j, b)
  {
    hide StoresByte;
  }

  lemma NothingMeans(insns: seq<Instruction>, base: Register, pos: int, k: int, b: int)
    requires StoresNothing(insns, base, pos, k)
    ensures !StoresByte(insns, base, pos, k, b)
  {
    hide StoresByte;
  }

  lemma ByteInRange(insns: seq<Instruction>, base: Register, pos: int, k: int, b: int)
    requires StoresByte(insns, base, pos, k, b)
    ensures 0 <= k < |insns|
  {
    hide IsStoreTo;
  }

  lemma BytesInRange(insns: seq<Instruction>, base: Register, pos: int)
    ensures forall k, b :: StoresByte(insns, base, pos, k, b) ==> 0 <= k < |insns|
  {
    hide IsStoreTo;
  }

  // ---------------------------------------------------------------- strings

  /** Instruction `k` is the last to store at the place, and the byte is a printable ASCII character. */
  ghost predicate IsCharAt(insns: seq<Instruction>, base: Register, pos: int, k: int, c: char) {
    IsLastByte(insns, base, pos, k, c as int) && ' ' <= c <= '~'
  }

  ghost predicate HasChar(insns: seq<Instruction>, base: Register, pos: int) {
    exists k, c :: IsCharAt(insns, base, pos, k, c)
  }

  /** The stretch from `lo` to `hi` is printable throughout and at neither end can be extended. */
  ghost predicate IsStretch(insns: seq<Instruction>, base: Register, lo: int, hi: int) {
    && lo < hi && !HasChar(insns, base, lo - 1) && !HasChar(insns, base, hi)
    && forall p :: lo <= p < hi ==> HasChar(insns, base, p)
  }

  /** The place holds `c`, stored by an instruction at address `ea`. */
  ghost predicate IsFrom(insns: seq<Instruction>, base: Register, p: int, c: char, ea: int) {
    exists k :: 0 <= k < |insns| && IsCharAt(insns, base, p, k, c) && ea == insns[k].ea
  }

  /** `r` spells the stretch, anchored at the least address among the instructions that stored its characters. */
  ghost predicate Spells(insns: seq<Instruction>, base: Register, lo: int, hi: int, r: Finding) {
    && |r.value| == hi - lo
    && (forall p, c, ea :: lo <= p < hi && IsFrom(insns, base, p, c, ea) ==> r.value[p - lo] == c && r.address <= ea)
    && exists p, c :: lo <= p < hi && IsFrom(insns, base, p, c, r.address)
  }

  ghost predicate IsStringOf(insns: seq<Instruction>, minLength: int, base: Register, lo: int, hi: int, r: Finding) {
    && IsStretch(insns, base, lo, hi) && hi - lo >= (if minLength > 0 then minLength else 4)
    && Spells(insns, base, lo, hi, r)
  }

  lemma CharIsPrintable(insns: seq<Instruction>, base: Register, pos: int)
    ensures var mem := MemoryAfter(StoresOf(insns, base));
      && (HasChar(insns, base, pos) <==> Printable(mem, pos))
      && forall k, c :: IsCharAt(insns, base, pos, k, c) ==>
           0 <= k < |insns| && pos in mem && mem[pos].byte as char == c && mem[pos].ea == insns[k].ea
  {
    MemoryIsSpelledOut(insns, base, pos);
    var mem := MemoryAfter(StoresOf(insns, base));
    hide IsLastByte, MemoryAfter, StoresOf;
    if Printable(mem, pos) {
      var k, byte :| IsLastByte(insns, base, pos, k, byte);
      assert IsCharAt(insns, base, pos, k, mem[pos].byte as char);
    }
  }

  lemma StretchIsBlock(insns: seq<Instruction>, base: Register, lo: int, hi: int)
    ensures IsStretch(insns, base, lo, hi) <==> IsBlock(MemoryAfter(StoresOf(insns, base)), Block(lo, hi))
  {
    var mem := MemoryAfter(StoresOf(insns, base));
    forall p ensures HasChar(insns, base, p) <==> Printable(mem, p) {
      CharIsPrintable(insns, base, p);
    }
    hide *;
    SameStretch(insns, base, lo, hi, mem);
  }

  lemma SameStretch(insns: seq<Instruction>, base: Register, lo: int, hi: int, mem: Memory)
    requires forall p :: HasChar(insns, base, p) <==> Printable(mem, p)
    ensures IsStretch(insns, base, lo, hi) <==> IsBlock(mem, Block(lo, hi))
  {
    hide HasChar, Printable;
  }

  lemma CharIsFrom(insns: seq<Instruction>, base: Register, p: int)
    requires HasChar(insns, base, p)
    ensures var mem := MemoryAfter(StoresOf(insns, base));
      p in mem && IsOnlyFrom(insns, base, p, mem[p].byte as char, mem[p].ea)
  {
    CharIsPrintable(insns, base, p);
    hide MemoryAfter, StoresOf, IsCharAt, Printable;
    var k, c :| IsCharAt(insns, base, p, k, c);
    assert IsFrom(insns, base, p, c, insns[k].ea);
  }

  lemma SpellingIsReading(insns: seq<Instruction>, base: Register, lo: int, hi: int, r: Finding)
    requires IsStretch(insns, base, lo, hi)
    ensures Spells(insns, base, lo, hi, r) <==> StackStrings.Reads(MemoryAfter(StoresOf(insns, base)), Block(lo, hi), r)
  {
    var mem := MemoryAfter(StoresOf(insns, base));
    hide *;
    StretchIsBlock(insns, base, lo, hi);
    BlockIsFilled(mem, lo, hi);
    TextAt(mem, lo, hi);
    var text, eas := Text(mem, lo, hi), Addresses(mem, lo, hi);
    PlacesAreFrom(insns, base, lo, hi);
    ByPlace(insns, base, lo, hi, r, text, eas);
    ReadsMeans(mem, lo, hi, r);
  }

  lemma BlockIsFilled(mem: Memory, lo: int, hi: int)
    requires IsBlock(mem, Block(lo, hi))
    ensures lo < hi && Filled(mem, lo, hi)
  {
  }

  lemma ReadsMeans(mem: Memory, lo: int, hi: int, r: Finding)
    requires IsBlock(mem, Block(lo, hi)) && Filled(mem, lo, hi)
    requires |Addresses(mem, lo, hi)| == hi - lo > 0
    ensures StackStrings.Reads(mem, Block(lo, hi), r)
      <==> r.value == Text(mem, lo, hi) && r.address == Least(Addresses(mem, lo, hi))
  {
    hide Text, Addresses, IsBlock;
  }

  lemma PlacesAreFrom(insns: seq<Instruction>, base: Register, lo: int, hi: int)
    requires lo < hi && Filled(MemoryAfter(StoresOf(insns, base)), lo, hi) && IsStretch(insns, base, lo, hi)
    ensures var text, eas := Text(MemoryAfter(StoresOf(insns, base)), lo, hi),
                             Addresses(MemoryAfter(StoresOf(insns, base)), lo, hi);
      && |text| == |eas| == hi - lo
      && forall i :: 0 <= i < |text| ==> IsOnlyFrom(insns, base, lo + i, text[i], eas[i])
  {
    hide *;
    var mem := MemoryAfter(StoresOf(insns, base));
    TextAt(mem, lo, hi);
    var text := Text(mem, lo, hi);
    forall i | 0 <= i < |text| ensures IsOnlyFrom(insns, base, lo + i, text[i], Addresses(mem, lo, hi)[i]) {
      PlaceIsFrom(insns, base, lo, hi, i);
    }
  }

  lemma PlaceIsFrom(insns: seq<Instruction>, base: Register, lo: int, hi: int, i: nat)
    requires Filled(MemoryAfter(StoresOf(insns, base)), lo, hi) && IsStretch(insns, base, lo, hi) && i < hi - lo
    ensures var text, eas := Text(MemoryAfter(StoresOf(insns, base)), lo, hi),
                             Addresses(MemoryAfter(StoresOf(insns, base)), lo, hi);
      i < |text| && i < |eas| && IsOnlyFrom(insns, base, lo + i, text[i], eas[i])
  {
    hide *;
    var mem, p := MemoryAfter(StoresOf(insns, base)), lo + i;
    StretchHasChar(insns, base, lo, hi, p);
    CharIsFrom(insns, base, p);
    TextAtPlace(mem, lo, hi, i);
  }

  lemma StretchHasChar(insns: seq<Instruction>, base: Register, lo: int, hi: int, p: int)
    requires IsStretch(insns, base, lo, hi) && lo <= p < hi
    ensures HasChar(insns, base, p)
  {
    hide HasChar;
  }

  lemma TextAtPlace(mem: Memory, lo: int, hi: int, i: nat)
    requires Filled(mem, lo, hi) && i < hi - lo
    ensures lo + i in mem
    ensures i < |Text(mem, lo, hi)| && Text(mem, lo, hi)[i] == mem[lo + i].byte as char
    ensures i < |Addresses(mem, lo, hi)| && Addresses(mem, lo, hi)[i] == mem[lo + i].ea
  {
    TextAt(mem, lo, hi);
    var p := lo + i;
    assert Printable(mem, p) && Text(mem, lo, hi)[p - lo] == mem[p].byte as char
      && Addresses(mem, lo, hi)[p - lo] == mem[p].ea;
    hide Text, Addresses;
  }

  ghost predicate IsOnlyFrom(insns: seq<Instruction>, base: Register, p: int, c: char, ea: int) {
    forall d, e :: IsFrom(insns, base, p, d, e) <==> d == c && e == ea
  }

  lemma ByPlace(insns: seq<Instruction>, base: Register, lo: int, hi: int, r: Finding, text: string, eas: seq<int>)
    requires lo < hi && |text| == |eas| == hi - lo
    requires forall i :: 0 <= i < |text| ==> IsOnlyFrom(insns, base, lo + i, text[i], eas[i])
    ensures Spells(insns, base, lo, hi, r) <==> r.value == text && r.address == Least(eas)
  {
    hide IsFrom;
    if Spells(insns, base, lo, hi, r) {
      forall i | 0 <= i < |text| ensures r.value[i] == text[i] && r.address <= eas[i] {
        assert IsOnlyFrom(insns, base, lo + i, text[i], eas[i]);
        var p := lo + i;
        assert IsFrom(insns, base, p, text[i], eas[i]);
        assert r.value[p - lo] == text[i];
      }
      var p, c :| lo <= p < hi && IsFrom(insns, base, p, c, r.address);
      var i := p - lo;
      assert IsOnlyFrom(insns, base, lo + i, text[i], eas[i]);
      assert r.address == eas[i];
    }
    if r.value == text && r.address == Least(eas) {
      forall p, c, ea | lo <= p < hi && IsFrom(insns, base, p, c, ea) ensures r.value[p - lo] == c && r.address <= ea {
        var i := p - lo;
        assert IsOnlyFrom(insns, base, lo + i, text[i], eas[i]);
      }
      var i :| 0 <= i < |eas| && eas[i] == r.address;
      assert IsOnlyFrom(insns, base, lo + i, text[i], eas[i]);
      assert IsFrom(insns, base, lo + i, text[i], r.address);
    }
  }

  /** The strings there are, in terms of what the instructions store. */
  lemma StackStringIsSpelledOut(insns: seq<Instruction>, minLength: int, r: Finding)
    ensures IsStackString(insns, minLength, r) <==> exists base, lo, hi :: IsStringOf(insns, minLength, base, lo, hi, r)
  {
    forall base, lo, hi
      ensures IsStringOf(insns, minLength, base, lo, hi, r) <==> IsStringAt(insns, minLength, base, Block(lo, hi), r)
    {
      StringIsAt(insns, minLength, base, lo, hi, r);
    }
    hide IsStringOf, IsStringAt;
    if IsStackString(insns, minLength, r) {
      var base, b :| IsStringAt(insns, minLength, base, b, r);
      assert b == Block(b.lo, b.hi);
      assert IsStringOf(insns, minLength, base, b.lo, b.hi, r);
    }
  }

  lemma StringIsAt(insns: seq<Instruction>, minLength: int, base: Register, lo: int, hi: int, r: Finding)
    ensures IsStringOf(insns, minLength, base, lo, hi, r) <==> IsStringAt(insns, minLength, base, Block(lo, hi), r)
  {
    StretchIsBlock(insns, base, lo, hi);
    if IsStretch(insns, base, lo, hi) { SpellingIsReading(insns, base, lo, hi, r); }
    hide IsStretch, Spells, StackStrings.Reads, IsBlock, MemoryAfter, StoresOf;
  }

  /** What is reported comes in order of anchor and, at one anchor, of text. */
  lemma OrderIsSpelledOut(a: Finding, b: Finding)
    ensures FindingLess(a, b)
      <==> a.address < b.address || (a.address == b.address && Strings.ComesBefore(a.value, b.value))
  {
    Strings.LessMeans(a.value, b.value);
    hide Strings.Less, Strings.ComesBefore;
  }

  /** Exactly these strings are reported, in that order. */
  lemma DetectionIsSpelledOut(insns: seq<Instruction>, minLength: int, matches: seq<Finding>)
    requires IsDetection(insns, minLength, matches)
    ensures forall r :: r in matches <==> exists base, lo, hi :: IsStringOf(insns, minLength, base, lo, hi, r)
    ensures forall i, j :: 0 <= i < j < |matches| ==>
      matches[i].address < matches[j].address
      || (matches[i].address == matches[j].address && !Strings.ComesBefore(matches[j].value, matches[i].value))
  {
    forall r ensures r in matches <==> exists base, lo, hi :: IsStringOf(insns, minLength, base, lo, hi, r) {
      DetectionIsExact(insns, minLength, matches, r);
      StackStringIsSpelledOut(insns, minLength, r);
      hide IsDetection, IsStackString, IsStringOf;
    }
    forall i, j | 0 <= i < j < |matches|
      ensures matches[i].address < matches[j].address
        || (matches[i].address == matches[j].address && !Strings.ComesBefore(matches[j].value, matches[i].value))
    {
      OrderIsSpelledOut(matches[j], matches[i]);
      hide FindingLess, Strings.ComesBefore, AreRunLists, Bases, Flatten;
    }
  }
}
