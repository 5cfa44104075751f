/**
  Stack-string reconstruction (src/idamesh/domain/services/stack_strings.py).

  A finding is specified by maximal blocks of printable bytes in the memory the stores leave behind;
  the methods are the source's loops and are proved to report exactly those blocks.
*/
module StackStrings {
  import opened Common
  import opened Decoded
  import Strings

  const DEFAULT_MIN_LENGTH := 4

  type Byte = b: int | 0 <= b < 256

  /** One immediate-to-stack-slot store. */
  datatype Store = Store(disp: int, ea: int, data: seq<Byte>)

  /** A byte of the reconstructed memory and the address of the store that put it there. */
  datatype Cell = Cell(byte: Byte, ea: int)

  datatype Finding = Finding(address: int, value: string)

  type Memory = map<int, Cell>

  predicate IsPrintable(b: Byte) { 0x20 <= b <= 0x7E }

  // ---------------------------------------------------------------- stores

  function Power256(n: nat): (p: int)
    ensures p > 0
  {
    if n == 0 then 1 else 256 * Power256(n - 1)
  }

  function Digits(v: int, width: nat): (s: seq<Byte>)
    ensures |s| == width
    decreases width
  {
    if width == 0 then [] else [v % 256] + Digits(v / 256, width - 1)
  }

  function LittleEndian(value: int, width: int): (s: seq<Byte>) {
    var w := if width <= 0 then 1 else width;
    Digits(value % Power256(w), w)
  }

  function ReadLittleEndian(s: seq<Byte>): int {
    if s == [] then 0 else s[0] + 256 * ReadLittleEndian(s[1..])
  }

  /** Reading the stored bytes back gives the value reduced to the store's width, negative or not. */
  lemma StoreReadsBack(value: int, width: int)
    ensures var w := if width <= 0 then 1 else width;
      && |LittleEndian(value, width)| == w
      && ReadLittleEndian(LittleEndian(value, width)) == value % Power256(w)
  {
    var w := if width <= 0 then 1 else width;
    DigitsReadBack(value % Power256(w), w);
  }

  lemma {:induction false} DigitsReadBack(v: int, width: nat)
    requires 0 <= v < Power256(width)
    ensures ReadLittleEndian(Digits(v, width)) == v
    decreases width
  {
    if width > 0 {
      DigitsReadBack(v / 256, width - 1);
      assert Digits(v, width)[1..] == Digits(v / 256, width - 1);
    }
  }

  predicate IsStoreMnemonic(m: Mnemonic) {
    m in {Mov, Movb, Movw, Movd, Movq}
  }

  function StoreWidth(dest: Operand, src: Operand): int {
    if dest.size.Some? && dest.size.value > 0 then dest.size.value
    else if src.size.Some? && src.size.value > 0 then src.size.value
    else 1
  }

  /** The base register an instruction stores an immediate against, and the store; None for any other instruction. */
  function AsStore(insn: Instruction): Option<(Register, Store)> {
    if !IsStoreMnemonic(insn.mnemonic) || |insn.operands| < 2 then None
    else
      var dest, src := OperandAt(insn, 0), OperandAt(insn, 1);
      if dest == None || src == None then None
      else if src.value.kind != ImmKind || src.value.value == None then None
      else if StackSlot(dest.value) == None || !dest.value.isWrite then None
      else
        var data := LittleEndian(src.value.value.value, StoreWidth(dest.value, src.value));
        Some((dest.value.base.value, Store(StackSlot(dest.value).value, insn.ea, data)))
  }

  /** A writable plain stack slot as operand 0 and an immediate with a value as operand 1. */
  predicate IsImmediateStore(insn: Instruction) {
    && IsStoreMnemonic(insn.mnemonic) && |insn.operands| >= 2
    && OperandAt(insn, 0).Some? && OperandAt(insn, 0).value.isWrite && StackSlot(OperandAt(insn, 0).value).Some?
    && OperandAt(insn, 1).Some? && OperandAt(insn, 1).value.kind == ImmKind && OperandAt(insn, 1).value.value.Some?
  }

  /**
    Exactly the immediate stores are recognized, each at its slot and address; the bytes are as many as
    the first positive operand size says, or one, and read back to the immediate reduced to that width.
  */
  lemma StoreIsExact(insn: Instruction)
    ensures AsStore(insn).Some? <==> IsImmediateStore(insn)
    ensures AsStore(insn).Some? ==>
      var (base, store) := AsStore(insn).value;
      var dest, src := OperandAt(insn, 0).value, OperandAt(insn, 1).value;
      && dest.base == Some(base) && StackSlot(dest) == Some(store.disp) && store.ea == insn.ea
      && (dest.size.Some? && dest.size.value > 0 ==> |store.data| == dest.size.value)
      && (!(dest.size.Some? && dest.size.value > 0) && src.size.Some? && src.size.value > 0 ==>
            |store.data| == src.size.value)
      && (!(dest.size.Some? && dest.size.value > 0) && !(src.size.Some? && src.size.value > 0) ==> |store.data| == 1)
      && ReadLittleEndian(store.data) == src.value.value % Power256(|store.data|)
  {
    if AsStore(insn).Some? {
      var dest, src := OperandAt(insn, 0).value, OperandAt(insn, 1).value;
      StoreReadsBack(src.value.value, StoreWidth(dest, src));
    }
    hide LittleEndian, OperandAt, Power256, ReadLittleEndian;
  }

  // ---------------------------------------------------------------- memory

  /** Memory after the first `k` bytes of `store`. */
  function Lay(mem: Memory, store: Store, k: nat): Memory
    requires k <= |store.data|
  {
    if k == 0 then mem else Lay(mem, store, k - 1)[store.disp + k - 1 := Cell(store.data[k - 1], store.ea)]
  }

  /** Memory after running the stores in program order. */
  function MemoryAfter(stores: seq<Store>): Memory {
    if stores == [] then map[]
    else Lay(MemoryAfter(stores[..|stores| - 1]), stores[|stores| - 1], |stores[|stores| - 1].data|)
  }

  predicate Covers(s: Store, pos: int) { s.disp <= pos < s.disp + |s.data| }

  /** Store `i` is the last to write the byte at `pos`. */
  ghost predicate Survives(stores: seq<Store>, pos: int, i: nat) {
    && i < |stores| && Covers(stores[i], pos)
    && forall j :: i < j < |stores| ==> !Covers(stores[j], pos)
  }

  function CellOf(s: Store, pos: int): Cell
    requires Covers(s, pos)
  {
    Cell(s.data[pos - s.disp], s.ea)
  }

  lemma {:induction false} LayAt(mem: Memory, store: Store, k: nat, pos: int)
    requires k <= |store.data|
    ensures store.disp <= pos < store.disp + k ==>
      pos in Lay(mem, store, k) && Lay(mem, store, k)[pos] == CellOf(store, pos)
    ensures !(store.disp <= pos < store.disp + k) ==> (pos in Lay(mem, store, k) <==> pos in mem)
    ensures !(store.disp <= pos < store.disp + k) && pos in mem ==> Lay(mem, store, k)[pos] == mem[pos]
  {
    if k > 0 { LayAt(mem, store, k - 1, pos); }
  }

  /** Every byte of the memory is the one the last store covering it wrote, and no other byte is there. */
  lemma {:induction false} MemoryIsLastWrite(stores: seq<Store>, pos: int)
    ensures pos in MemoryAfter(stores) <==> exists i: nat :: Survives(stores, pos, i)
    ensures forall i: nat | Survives(stores, pos, i) :: pos in MemoryAfter(stores)
                                                        && MemoryAfter(stores)[pos] == CellOf(stores[i], pos)
  {
    if stores != [] {
      var init, last := stores[..|stores| - 1], |stores| - 1;
      MemoryIsLastWrite(init, pos);
      LayAt(MemoryAfter(init), stores[last], |stores[last].data|, pos);
      if Covers(stores[last], pos) {
        assert Survives(stores, pos, last);
      } else {
        forall i: nat
          ensures Survives(stores, pos, i) <==> Survives(init, pos, i)
        {
          SurvivalIsInherited(stores, pos, i);
        }
      }
    }
  }

  lemma SurvivalIsInherited(stores: seq<Store>, pos: int, i: nat)
    requires stores != [] && !Covers(stores[|stores| - 1], pos)
    ensures Survives(stores, pos, i) <==> Survives(stores[..|stores| - 1], pos, i)
  {
    var init := stores[..|stores| - 1];
    if Survives(init, pos, i) {
      forall j | i < j < |stores|
        ensures !Covers(stores[j], pos)
      {
        if j < |init| { assert init[j] == stores[j]; }
      }
    }
  }

  // ---------------------------------------------------------------- printable blocks

  /** Positions lo, ..., hi - 1. */
  datatype Block = Block(lo: int, hi: int)

  predicate Printable(mem: Memory, pos: int) { pos in mem && IsPrintable(mem[pos].byte) }

  ghost predicate Filled(mem: Memory, lo: int, hi: int) {
    forall p :: lo <= p < hi ==> Printable(mem, p)
  }

  /** A contiguous stretch of printable bytes that cannot be extended at either end. */
  ghost predicate IsBlock(mem: Memory, b: Block) {
    && b.lo < b.hi && !Printable(mem, b.lo - 1) && !Printable(mem, b.hi)
    && Filled(mem, b.lo, b.hi)
  }

  ghost predicate IsReported(mem: Memory, threshold: int, b: Block) {
    IsBlock(mem, b) && b.hi - b.lo >= threshold
  }

  predicate Ascending(blocks: seq<Block>) {
    forall i, j :: 0 <= i < j < |blocks| ==> blocks[i].lo < blocks[j].lo
  }

  /** All the blocks long enough, each once, in ascending order. */
  ghost predicate IsBlockList(mem: Memory, threshold: int, blocks: seq<Block>) {
    Ascending(blocks) && forall b :: b in blocks <==> IsReported(mem, threshold, b)
  }

  ghost function Text(mem: Memory, lo: int, hi: int): string
    requires Filled(mem, lo, hi)
    decreases hi - lo
  {
    assert lo < hi ==> Printable(mem, hi - 1);
    if lo >= hi then "" else Text(mem, lo, hi - 1) + [mem[hi - 1].byte as char]
  }

  ghost function Addresses(mem: Memory, lo: int, hi: int): seq<int>
    requires Filled(mem, lo, hi)
    decreases hi - lo
  {
    assert lo < hi ==> Printable(mem, hi - 1);
    if lo >= hi then [] else Addresses(mem, lo, hi - 1) + [mem[hi - 1].ea]
  }

  function Least(s: seq<int>): (m: int)
    requires s != []
    ensures m in s && forall i :: 0 <= i < |s| ==> m <= s[i]
  {
    if |s| == 1 then s[0]
    else
      var m := Least(s[..|s| - 1]);
      assert s == s[..|s| - 1] + [s[|s| - 1]];
      if s[|s| - 1] < m then s[|s| - 1] else m
  }

  lemma {:induction false} TextAt(mem: Memory, lo: int, hi: int)
    requires lo <= hi && Filled(mem, lo, hi)
    ensures |Text(mem, lo, hi)| == |Addresses(mem, lo, hi)| == hi - lo
    ensures forall p :: lo <= p < hi ==> Printable(mem, p) && Text(mem, lo, hi)[p - lo] == mem[p].byte as char
    ensures forall p :: lo <= p < hi ==> Printable(mem, p) && Addresses(mem, lo, hi)[p - lo] == mem[p].ea
    decreases hi - lo
  {
    if lo < hi { TextAt(mem, lo, hi - 1); }
  }

  /** `r` is what block `b` reads as: its characters, anchored at the least address among its cells. */
  ghost predicate Reads(mem: Memory, b: Block, r: Finding) {
    && IsBlock(mem, b)
    && r.value == Text(mem, b.lo, b.hi)
    && Addresses(mem, b.lo, b.hi) != [] && r.address == Least(Addresses(mem, b.lo, b.hi))
  }

  ghost predicate ReadsAll(mem: Memory, blocks: seq<Block>, results: seq<Finding>) {
    |results| == |blocks| && forall i :: 0 <= i < |blocks| ==> Reads(mem, blocks[i], results[i])
  }

  /** `results` are the readings of exactly the blocks of `mem` that are long enough, in ascending order. */
  ghost predicate IsRunList(mem: Memory, threshold: int, results: seq<Finding>) {
    exists blocks :: IsBlockList(mem, threshold, blocks) && ReadsAll(mem, blocks, results)
  }

  /** The blocks determine the list. */
  lemma RunListIsUnique(mem: Memory, threshold: int, a: seq<Finding>, b: seq<Finding>)
    requires IsRunList(mem, threshold, a) && IsRunList(mem, threshold, b)
    ensures a == b
  {
    var x :| IsBlockList(mem, threshold, x) && ReadsAll(mem, x, a);
    var y :| IsBlockList(mem, threshold, y) && ReadsAll(mem, y, b);
    hide IsReported, Text, Addresses;
    AscendingIsUnique(x, y);
  }

  lemma FirstIsLeast(a: seq<Block>, x: Block)
    requires Ascending(a) && x in a
    ensures a[0].lo <= x.lo
  {
    var i :| 0 <= i < |a| && a[i] == x;
    assert i == 0 || a[0].lo < a[i].lo;
  }

  lemma InRest(a: seq<Block>, x: Block)
    requires Ascending(a) && a != []
    ensures x in a[1..] <==> x in a && x != a[0]
  {
    assert a == [a[0]] + a[1..];
    if x in a[1..] {
      var i :| 0 <= i < |a[1..]| && a[1..][i] == x;
      assert a[0].lo < a[i + 1].lo;
    }
  }

  lemma {:induction false} AscendingIsUnique(a: seq<Block>, b: seq<Block>)
    requires Ascending(a) && Ascending(b) && forall x :: x in a <==> x in b
    ensures a == b
  {
    assert b != [] ==> b[0] in a;
    if a != [] {
      assert a[0] in b && b[0] in a;
      assert a[0].lo == b[0].lo by {
        FirstIsLeast(a, b[0]);
        FirstIsLeast(b, a[0]);
      }
      var j :| 0 <= j < |b| && b[j] == a[0];
      forall x ensures x in a[1..] <==> x in b[1..] {
        InRest(a, x);
        InRest(b, x);
      }
      AscendingIsUnique(a[1..], b[1..]);
      assert a == [a[0]] + a[1..] && b == [b[0]] + b[1..];
    }
  }

  /**
    A reported string is what its stores left: character `p` is the byte of the store that last wrote
    position `p`, and the anchor is the least address of those stores.
  */
  lemma FindingIsWhatSurvives(stores: seq<Store>, b: Block, r: Finding, p: int, i: nat)
    requires Reads(MemoryAfter(stores), b, r) && b.lo <= p < b.hi && Survives(stores, p, i)
    ensures |r.value| == b.hi - b.lo && r.value[p - b.lo] == stores[i].data[p - stores[i].disp] as char
    ensures r.address <= stores[i].ea
    ensures exists q: int, j: nat :: b.lo <= q < b.hi && Survives(stores, q, j) && r.address == stores[j].ea
  {
    var mem := MemoryAfter(stores);
    var eas := Addresses(mem, b.lo, b.hi);
    TextAt(mem, b.lo, b.hi);
    MemoryIsLastWrite(stores, p);
    assert eas[p - b.lo] == mem[p].ea;
    assert Printable(mem, p);
    var m :| 0 <= m < |eas| && eas[m] == r.address;
    hide *;
    SomeStoreAnchors(stores, b, r, m);
  }

  lemma SomeStoreAnchors(stores: seq<Store>, b: Block, r: Finding, m: nat)
    requires Reads(MemoryAfter(stores), b, r)
    requires m < |Addresses(MemoryAfter(stores), b.lo, b.hi)|
      && Addresses(MemoryAfter(stores), b.lo, b.hi)[m] == r.address
    ensures exists q: int, j: nat :: b.lo <= q < b.hi && Survives(stores, q, j) && r.address == stores[j].ea
  {
    var mem := MemoryAfter(stores);
    TextAt(mem, b.lo, b.hi);
    var q := b.lo + m;
    assert Printable(mem, q) && Addresses(mem, b.lo, b.hi)[q - b.lo] == mem[q].ea;
    MemoryIsLastWrite(stores, q);
    hide Text, Addresses, MemoryAfter;
    var j: nat :| Survives(stores, q, j);
    assert b.lo <= q < b.hi && Survives(stores, q, j) && r.address == stores[j].ea;
  }

  // ---------------------------------------------------------------- the scan

  /** `blocks` are the reported blocks that start before `edge`. */
  ghost predicate IsPrefix(mem: Memory, threshold: int, blocks: seq<Block>, edge: int) {
    Ascending(blocks) && forall b :: b in blocks <==> IsReported(mem, threshold, b) && b.lo < edge
  }

  /** Nothing starts between the edges. */
  lemma EdgeMoves(mem: Memory, threshold: int, blocks: seq<Block>, edge: int, edge': int)
    requires IsPrefix(mem, threshold, blocks, edge) && edge <= edge'
    requires forall p :: edge <= p < edge' ==> !Printable(mem, p) || Printable(mem, p - 1)
    ensures IsPrefix(mem, threshold, blocks, edge')
  {
    forall b
      ensures b in blocks <==> IsReported(mem, threshold, b) && b.lo < edge'
    {
      if IsReported(mem, threshold, b) && b.lo >= edge { assert Printable(mem, b.lo) && !Printable(mem, b.lo - 1); }
    }
  }

  /** Closing the open block `b`, which starts at the edge. */
  lemma BlockCloses(mem: Memory, threshold: int, blocks: seq<Block>, b: Block)
    requires IsPrefix(mem, threshold, blocks, b.lo) && IsBlock(mem, b)
    ensures IsPrefix(mem, threshold, if b.hi - b.lo >= threshold then blocks + [b] else blocks, b.hi + 1)
  {
    var blocks' := if b.hi - b.lo >= threshold then blocks + [b] else blocks;
    forall i | 0 <= i < |blocks| ensures blocks[i].lo < b.lo {
      assert blocks[i] in blocks;
    }
    forall x
      ensures x in blocks' <==> IsReported(mem, threshold, x) && x.lo < b.hi + 1
    {
      if IsBlock(mem, x) && b.lo <= x.lo <= b.hi { BlocksAreApart(mem, b, x); }
    }
  }

  lemma BlocksAreApart(mem: Memory, b: Block, x: Block)
    requires IsBlock(mem, b) && IsBlock(mem, x) && b.lo <= x.lo <= b.hi
    ensures x == b
  {
    assert b.lo < x.lo ==> Printable(mem, x.lo - 1);
    assert x.hi < b.hi ==> Printable(mem, x.hi);
    assert b.hi < x.hi ==> Printable(mem, b.hi);
  }

  predicate Increasing(r: seq<int>) {
    forall i, j :: 0 <= i < j < |r| ==> r[i] < r[j]
  }

  ghost predicate IsListing(r: seq<int>, s: set<int>) {
    Increasing(r) && forall p :: p in r <==> p in s
  }

  ghost predicate IsBelow(m: int, s: set<int>) {
    forall x :: x in s ==> m <= x
  }

  method SortedPositions(s: set<int>) returns (r: seq<int>)
    ensures IsListing(r, s) && |r| == |s|
  {
    r := [];
    var rest := s;
    while rest != {}
      invariant rest <= s && IsListing(r, s - rest) && |r| == |s| - |rest|
      invariant forall i :: 0 <= i < |r| ==> IsBelow(r[i], rest) && r[i] !in rest
      decreases |rest|
    {
      var p := LeastOf(rest);
      r, rest := r + [p], rest - {p};
    }
    assert s - rest == s;
  }

  method LeastOf(s: set<int>) returns (m: int)
    requires s != {}
    ensures m in s && IsBelow(m, s)
  {
    m := AnyOf(s);
    var rest := s - {m};
    while rest != {}
      invariant m in s && rest <= s && IsBelow(m, s - rest)
      decreases |rest|
    {
      var x := AnyOf(rest);
      if x < m { m := x; }
      forall y | y in s - (rest - {x}) ensures m <= y {
        assert y == x || y in s - rest;
      }
      rest := rest - {x};
    }
    assert s - rest == s;
  }

  method LayStores(stores: seq<Store>) returns (mem: Memory)
    ensures mem == MemoryAfter(stores)
  {
    mem := map[];
    for i := 0 to |stores|
      invariant mem == MemoryAfter(stores[..i])
    {
      ghost var before := mem;
      for k := 0 to |stores[i].data|
        invariant mem == Lay(before, stores[i], k)
      {
        mem := mem[stores[i].disp + k := Cell(stores[i].data[k], stores[i].ea)];
      }
      assert stores[..i + 1][..i] == stores[..i];
    }
    assert stores[..|stores|] == stores;
  }

  /** The run being read: it starts at `lo` and has reached `hi`. */
  ghost predicate IsOpen(mem: Memory, lo: int, hi: int, chars: string, eas: seq<int>) {
    && lo <= hi && Filled(mem, lo, hi) && !Printable(mem, lo - 1)
    && chars == Text(mem, lo, hi) && eas == Addresses(mem, lo, hi)
  }

  /** Everything that starts before `lo` has been reported, and the run from `lo` to `hi` is being read. */
  ghost predicate IsScanned(mem: Memory, threshold: int, blocks: seq<Block>, results: seq<Finding>, lo: int, hi: int,
                            chars: string, eas: seq<int>) {
    IsOpen(mem, lo, hi, chars, eas) && IsPrefix(mem, threshold, blocks, lo) && ReadsAll(mem, blocks, results)
  }

  /** Nothing printable lies from `lo` up to `hi`. */
  ghost predicate IsBlank(mem: Memory, lo: int, hi: int) {
    forall p :: lo <= p < hi ==> !Printable(mem, p)
  }

  /** Reports the open run if it is long enough. */
  method Flush(mem: Memory, threshold: int, chars: string, eas: seq<int>, results: seq<Finding>,
               ghost blocks: seq<Block>, ghost lo: int, ghost hi: int)
    returns (results': seq<Finding>, ghost blocks': seq<Block>)
    requires threshold >= 1 && IsScanned(mem, threshold, blocks, results, lo, hi, chars, eas) && !Printable(mem, hi)
    ensures |chars| >= threshold ==> eas != [] && results' == results + [Finding(Least(eas), chars)]
    ensures |chars| < threshold ==> results' == results
    ensures IsPrefix(mem, threshold, blocks', hi + 1) && ReadsAll(mem, blocks', results')
  {
    TextAt(mem, lo, hi);
    assert |chars| == |eas| == hi - lo >= 0;
    results', blocks' := results, blocks;
    if |chars| >= threshold {
      results' := results + [Finding(Least(eas), chars)];
      blocks' := blocks + [Block(lo, hi)];
    }
    RunCloses(mem, threshold, blocks, results, lo, hi, chars, eas);
  }

  lemma RunCloses(mem: Memory, threshold: int, blocks: seq<Block>, results: seq<Finding>, lo: int, hi: int,
                  chars: string, eas: seq<int>)
    requires threshold >= 1 && IsScanned(mem, threshold, blocks, results, lo, hi, chars, eas) && !Printable(mem, hi)
    requires |chars| == |eas| == hi - lo
    ensures |chars| < threshold ==> IsPrefix(mem, threshold, blocks, hi + 1) && ReadsAll(mem, blocks, results)
    ensures |chars| >= threshold ==>
      var blocks', results' := blocks + [Block(lo, hi)], results + [Finding(Least(eas), chars)];
      IsPrefix(mem, threshold, blocks', hi + 1) && ReadsAll(mem, blocks', results')
  {
    hide Text, Addresses, IsReported;
    if lo < hi {
      assert IsBlock(mem, Block(lo, hi));
      BlockCloses(mem, threshold, blocks, Block(lo, hi));
      hide IsPrefix, IsBlock;
      assert Reads(mem, Block(lo, hi), Finding(Least(eas), chars)) by { assert IsBlock(mem, Block(lo, hi)); }
      hide Reads;
    } else {
      EdgeMoves(mem, threshold, blocks, lo, hi + 1);
    }
  }

  /** After a run is closed reading starts again further on, where nothing was printable in between. */
  lemma StartsOver(mem: Memory, threshold: int, blocks: seq<Block>, results: seq<Finding>, edge: int, pos: int)
    requires IsPrefix(mem, threshold, blocks, edge) && ReadsAll(mem, blocks, results)
    requires edge <= pos && IsBlank(mem, edge, pos) && !Printable(mem, pos - 1)
    ensures IsScanned(mem, threshold, blocks, results, pos, pos, "", [])
  {
    EdgeMoves(mem, threshold, blocks, edge, pos);
    hide IsPrefix, ReadsAll;
  }

  lemma RunGrows(mem: Memory, threshold: int, blocks: seq<Block>, results: seq<Finding>, lo: int, pos: int,
                 chars: string, eas: seq<int>)
    requires IsScanned(mem, threshold, blocks, results, lo, pos, chars, eas) && Printable(mem, pos)
    ensures IsScanned(mem, threshold, blocks, results, lo, pos + 1, chars + [mem[pos].byte as char],
                      eas + [mem[pos].ea])
  {
    hide IsPrefix, ReadsAll;
  }

  lemma NothingToReport(mem: Memory, threshold: int)
    requires mem.Keys == {}
    ensures IsRunList(mem, threshold, [])
  {
    assert forall b :: IsBlock(mem, b) ==> Printable(mem, b.lo);
    assert IsBlockList(mem, threshold, []) && ReadsAll(mem, [], []);
  }

  method Runs(stores: seq<Store>, threshold: int) returns (results: seq<Finding>)
    requires threshold >= 1
    ensures IsRunList(MemoryAfter(stores), threshold, results)
  {
    hide *;
    var mem := LayStores(stores);
    results := [];
    if mem.Keys == {} {
      NothingToReport(mem, threshold);
      return;
    }
    var positions := SortedPositions(mem.Keys);
    var chars, eas, prev := "", [], None;
    ghost var blocks := [];
    ghost var lo := positions[0] - 1;
    ghost var hi := lo;
    StartsAtFirst(mem, threshold, positions);
    for i := 0 to |positions|
      invariant IsScanned(mem, threshold, blocks, results, lo, hi, chars, eas)
      invariant i == 0 ==> prev == None && hi == positions[0] - 1
      invariant i > 0 ==> prev == Some(positions[i - 1]) && hi == positions[i - 1] + 1
    {
      var pos := positions[i];
      Skipped(mem, positions, i, hi);
      if prev == None || pos != prev.value + 1 {
        results, blocks := Flush(mem, threshold, chars, eas, results, blocks, lo, hi);
        chars, eas := "", [];
        StartsOver(mem, threshold, blocks, results, hi + 1, pos);
        lo, hi := pos, pos;
      }
      if IsPrintable(mem[pos].byte) {
        RunGrows(mem, threshold, blocks, results, lo, pos, chars, eas);
        chars, eas := chars + [mem[pos].byte as char], eas + [mem[pos].ea];
        hi := pos + 1;
      } else {
        results, blocks := Flush(mem, threshold, chars, eas, results, blocks, lo, hi);
        chars, eas := "", [];
        StartsOver(mem, threshold, blocks, results, hi + 1, pos + 1);
        lo, hi := pos + 1, pos + 1;
      }
      prev := Some(pos);
    }
    BeyondLast(mem, positions);
    results, blocks := Flush(mem, threshold, chars, eas, results, blocks, lo, hi);
    EndsAtLast(mem, threshold, positions, blocks, results);
  }

  lemma EndsAtLast(mem: Memory, threshold: int, positions: seq<int>, blocks: seq<Block>, results: seq<Finding>)
    requires positions != [] && IsListing(positions, mem.Keys)
    requires IsPrefix(mem, threshold, blocks, positions[|positions| - 1] + 2) && ReadsAll(mem, blocks, results)
    ensures IsRunList(mem, threshold, results)
  {
    forall b | IsReported(mem, threshold, b) ensures b.lo <= positions[|positions| - 1] {
      assert Printable(mem, b.lo) && b.lo in positions;
      var k :| 0 <= k < |positions| && positions[k] == b.lo;
    }
    hide ReadsAll, IsReported;
    assert IsBlockList(mem, threshold, blocks);
  }

  lemma BeyondLast(mem: Memory, positions: seq<int>)
    requires positions != [] && IsListing(positions, mem.Keys)
    ensures !Printable(mem, positions[|positions| - 1] + 1)
  {
    var next := positions[|positions| - 1] + 1;
    if next in positions {
      var k :| 0 <= k < |positions| && positions[k] == next;
    }
  }

  lemma StartsAtFirst(mem: Memory, threshold: int, positions: seq<int>)
    requires positions != [] && IsListing(positions, mem.Keys)
    ensures IsScanned(mem, threshold, [], [], positions[0] - 1, positions[0] - 1, "", [])
  {
    forall p | p in positions ensures positions[0] <= p {
      var k :| 0 <= k < |positions| && positions[k] == p;
    }
    forall b | IsReported(mem, threshold, b) ensures b.lo >= positions[0] {
      assert Printable(mem, b.lo) && b.lo in positions;
    }
  }

  // positions hi, ..., positions[i] - 1 hold nothing
  lemma Skipped(mem: Memory, positions: seq<int>, i: nat, hi: int)
    requires i < |positions| && IsListing(positions, mem.Keys)
    requires i > 0 ==> hi == positions[i - 1] + 1
    requires i == 0 ==> hi == positions[0] - 1
    ensures (i > 0 && positions[i] == hi) || hi < positions[i]
    ensures hi < positions[i] ==> !Printable(mem, hi) && IsBlank(mem, hi + 1, positions[i])
                                  && !Printable(mem, positions[i] - 1)
    ensures positions[i] in mem && (Printable(mem, positions[i]) <==> IsPrintable(mem[positions[i]].byte))
    ensures !Printable(mem, positions[i]) ==> IsBlank(mem, positions[i] + 1, positions[i] + 1)
  {
    forall p | p in positions ensures p < hi || positions[i] <= p {
      var k :| 0 <= k < |positions| && positions[k] == p;
    }
    assert positions[i] in positions;
  }

  // ---------------------------------------------------------------- over all bases

  /** The stores against one base register, in program order. */
  function StoresOf(insns: seq<Instruction>, base: Register): seq<Store> {
    if insns == [] then []
    else
      var found := AsStore(insns[|insns| - 1]);
      StoresOf(insns[..|insns| - 1], base) + (if found.Some? && found.value.0 == base then [found.value.1] else [])
  }

  /** The base registers stored against, in order of first use. */
  function Bases(insns: seq<Instruction>): seq<Register> {
    if insns == [] then []
    else
      var before, found := Bases(insns[..|insns| - 1]), AsStore(insns[|insns| - 1]);
      if found.Some? && found.value.0 !in before then before + [found.value.0] else before
  }

  lemma {:induction false} BasesAreListedOnce(insns: seq<Instruction>, base: Register)
    ensures base in Bases(insns) <==> StoresOf(insns, base) != []
    ensures forall i, j :: 0 <= i < j < |Bases(insns)| ==> Bases(insns)[i] != Bases(insns)[j]
  {
    hide AsStore;
    if insns != [] {
      var init := insns[..|insns| - 1];
      BasesAreListedOnce(init, base);
      OneMoreInstruction(insns, base);
      hide Bases, StoresOf;
    }
  }

  lemma OneMoreInstruction(insns: seq<Instruction>, base: Register)
    requires insns != []
    ensures var init, found := insns[..|insns| - 1], AsStore(insns[|insns| - 1]);
      && (StoresOf(insns, base) == [] <==> StoresOf(init, base) == [] && !(found.Some? && found.value.0 == base))
      && (Bases(insns) == if found.Some? && found.value.0 !in Bases(init) then Bases(init) + [found.value.0]
          else Bases(init))
  {
    hide AsStore;
  }

  function Threshold(minLength: int): (t: int)
    ensures t >= 1
  {
    if minLength > 0 then minLength else DEFAULT_MIN_LENGTH
  }

  predicate FindingLess(a: Finding, b: Finding) {
    a.address < b.address || (a.address == b.address && Strings.Less(a.value, b.value))
  }

  predicate IsSorted(r: seq<Finding>) {
    forall i, j :: 0 <= i < j < |r| ==> !FindingLess(r[j], r[i])
  }

  function Flatten(runs: seq<seq<Finding>>): seq<Finding> {
    if runs == [] then [] else Flatten(runs[..|runs| - 1]) + runs[|runs| - 1]
  }

  /** `runs[i]` is the run list of the memory behind `bases[i]`. */
  ghost predicate AreRunLists(insns: seq<Instruction>, threshold: int, bases: seq<Register>, runs: seq<seq<Finding>>) {
    |runs| == |bases| && forall i :: 0 <= i < |bases| ==>
      IsRunList(MemoryAfter(StoresOf(insns, bases[i])), threshold, runs[i])
  }

  /** A sorted permutation of all the bases' run lists. */
  ghost predicate IsDetection(insns: seq<Instruction>, minLength: int, matches: seq<Finding>) {
    && IsSorted(matches)
    && exists runs :: AreRunLists(insns, Threshold(minLength), Bases(insns), runs)
                      && multiset(matches) == multiset(Flatten(runs))
  }

  lemma FindingOrder(a: Finding, b: Finding, c: Finding)
    ensures FindingLess(a, b) || a == b || FindingLess(b, a)
    ensures !(FindingLess(a, b) && FindingLess(b, a))
    ensures FindingLess(a, b) && FindingLess(b, c) ==> FindingLess(a, c)
  {
    Strings.Trichotomy(a.value, b.value);
    if Strings.Less(a.value, b.value) && Strings.Less(b.value, c.value) {
      Strings.Transitive(a.value, b.value, c.value);
    }
  }

  lemma {:induction false} SortedIsUnique(a: seq<Finding>, b: seq<Finding>)
    requires IsSorted(a) && IsSorted(b) && multiset(a) == multiset(b)
    ensures a == b
  {
    hide *;
    if a == [] {
      assert multiset(b) == multiset{};
    } else {
      assert a[0] in multiset(b) && b[0] in multiset(a);
      HeadIsLeast(a, b[0]);
      HeadIsLeast(b, a[0]);
      FindingOrder(a[0], b[0], b[0]);
      TailIsSorted(a);
      TailIsSorted(b);
      SameTails(a, b);
      SortedIsUnique(a[1..], b[1..]);
      assert a == [a[0]] + a[1..] && b == [b[0]] + b[1..];
    }
  }

  lemma SameTails(a: seq<Finding>, b: seq<Finding>)
    requires a != [] && b != [] && a[0] == b[0] && multiset(a) == multiset(b)
    ensures multiset(a[1..]) == multiset(b[1..])
  {
    assert a == [a[0]] + a[1..] && b == [a[0]] + b[1..];
    assert multiset(a[1..]) == multiset(a) - multiset{a[0]} && multiset(b[1..]) == multiset(b) - multiset{a[0]};
  }

  lemma HeadIsLeast(a: seq<Finding>, x: Finding)
    requires IsSorted(a) && x in multiset(a)
    ensures a != [] && !FindingLess(x, a[0])
  {
    var i :| 0 <= i < |a| && a[i] == x;
    FindingOrder(x, x, x);
    hide FindingLess;
  }

  lemma TailIsSorted(a: seq<Finding>)
    requires IsSorted(a) && a != []
    ensures IsSorted(a[1..])
  {
    hide FindingLess;
  }

  /** The instructions and the threshold determine the answer. */
  lemma DetectionIsUnique(insns: seq<Instruction>, minLength: int, a: seq<Finding>, b: seq<Finding>)
    requires IsDetection(insns, minLength, a) && IsDetection(insns, minLength, b)
    ensures a == b
  {
    var t, bases := Threshold(minLength), Bases(insns);
    var x :| AreRunLists(insns, t, bases, x) && multiset(a) == multiset(Flatten(x));
    var y :| AreRunLists(insns, t, bases, y) && multiset(b) == multiset(Flatten(y));
    hide Bases, IsRunList, FindingLess, Flatten, Threshold;
    forall i | 0 <= i < |bases| ensures x[i] == y[i] {
      RunListIsUnique(MemoryAfter(StoresOf(insns, bases[i])), t, x[i], y[i]);
    }
    assert x == y;
    SortedIsUnique(a, b);
  }

  /** `r` is a long enough printable block of the memory behind some base register. */
  ghost predicate IsStackString(insns: seq<Instruction>, minLength: int, r: Finding) {
    exists base, b :: IsStringAt(insns, minLength, base, b, r)
  }

  ghost predicate IsStringAt(insns: seq<Instruction>, minLength: int, base: Register, b: Block, r: Finding) {
    var mem := MemoryAfter(StoresOf(insns, base));
    IsReported(mem, Threshold(minLength), b) && Reads(mem, b, r)
  }

  /** Nothing is missed and nothing is made up. */
  lemma DetectionIsExact(insns: seq<Instruction>, minLength: int, matches: seq<Finding>, r: Finding)
    requires IsDetection(insns, minLength, matches)
    ensures r in matches <==> IsStackString(insns, minLength, r)
  {
    var t, bases := Threshold(minLength), Bases(insns);
    var runs :| AreRunLists(insns, t, bases, runs) && multiset(matches) == multiset(Flatten(runs));
    hide *;
    InMatches(matches, runs, r);
    if r in matches {
      var i :| 0 <= i < |runs| && r in runs[i];
      RunListed(insns, t, bases, runs, i);
      InRunList(MemoryAfter(StoresOf(insns, bases[i])), t, runs[i], r);
      FoundAt(insns, minLength, bases[i], r);
    }
    if IsStackString(insns, minLength, r) {
      var i := BaseOf(insns, minLength, r);
      RunListed(insns, t, bases, runs, i);
      InRunList(MemoryAfter(StoresOf(insns, bases[i])), t, runs[i], r);
    }
  }

  lemma RunListed(insns: seq<Instruction>, t: int, bases: seq<Register>, runs: seq<seq<Finding>>, i: nat)
    requires AreRunLists(insns, t, bases, runs) && (i < |runs| || i < |bases|)
    ensures i < |runs| == |bases| && IsRunList(MemoryAfter(StoresOf(insns, bases[i])), t, runs[i])
  {
  }

  lemma FoundAt(insns: seq<Instruction>, minLength: int, base: Register, r: Finding)
    requires InBlock(MemoryAfter(StoresOf(insns, base)), Threshold(minLength), r)
    ensures IsStackString(insns, minLength, r)
  {
    var mem, t := MemoryAfter(StoresOf(insns, base)), Threshold(minLength);
    var b :| IsReported(mem, t, b) && Reads(mem, b, r);
    assert IsStringAt(insns, minLength, base, b, r);
  }

  ghost predicate InBlock(mem: Memory, t: int, r: Finding) {
    exists b :: IsReported(mem, t, b) && Reads(mem, b, r)
  }

  lemma BaseOf(insns: seq<Instruction>, minLength: int, r: Finding) returns (i: nat)
    requires IsStackString(insns, minLength, r)
    ensures i < |Bases(insns)| && InBlock(MemoryAfter(StoresOf(insns, Bases(insns)[i])), Threshold(minLength), r)
  {
    var base, b :| IsStringAt(insns, minLength, base, b, r);
    BasesAreListedOnce(insns, base);
    assert Printable(MemoryAfter(StoresOf(insns, base)), b.lo);
    assert StoresOf(insns, base) != [] && base in Bases(insns);
    i :| 0 <= i < |Bases(insns)| && Bases(insns)[i] == base;
  }

  lemma InRunList(mem: Memory, t: int, results: seq<Finding>, r: Finding)
    requires IsRunList(mem, t, results)
    ensures r in results <==> InBlock(mem, t, r)
  {
    var blocks :| IsBlockList(mem, t, blocks) && ReadsAll(mem, blocks, results);
    hide IsReported, Text, Addresses, IsBlock;
    if r in results {
      var i :| 0 <= i < |results| && results[i] == r;
      assert blocks[i] in blocks;
    }
    if InBlock(mem, t, r) {
      var b :| IsReported(mem, t, b) && Reads(mem, b, r);
      var i :| 0 <= i < |blocks| && blocks[i] == b;
      assert results[i] == r;
    }
  }

  lemma InMatches(matches: seq<Finding>, runs: seq<seq<Finding>>, r: Finding)
    requires multiset(matches) == multiset(Flatten(runs))
    ensures r in matches <==> exists i :: 0 <= i < |runs| && r in runs[i]
  {
    assert r in matches <==> r in multiset(matches);
    assert r in Flatten(runs) <==> r in multiset(Flatten(runs));
    InFlatten(runs, r);
  }

  lemma {:induction false} InFlatten(runs: seq<seq<Finding>>, r: Finding)
    ensures r in Flatten(runs) <==> exists i :: 0 <= i < |runs| && r in runs[i]
  {
    if runs != [] {
      InFlatten(runs[..|runs| - 1], r);
      assert runs == runs[..|runs| - 1] + [runs[|runs| - 1]];
      hide Flatten;
    }
  }

  method Sort(found: seq<Finding>) returns (r: seq<Finding>)
    ensures IsSorted(r) && multiset(r) == multiset(found)
  {
    r := [];
    for i := 0 to |found|
      invariant IsSorted(r) && multiset(r) == multiset(found[..i])
    {
      assert found[..i + 1] == found[..i] + [found[i]];
      r := Insert(r, found[i]);
    }
    assert found[..|found|] == found;
  }

  method Insert(s: seq<Finding>, x: Finding) returns (r: seq<Finding>)
    requires IsSorted(s)
    ensures IsSorted(r) && multiset(r) == multiset(s) + multiset{x}
  {
    var at := |s|;
    while at > 0 && FindingLess(x, s[at - 1])
      invariant 0 <= at <= |s| && forall i :: at <= i < |s| ==> FindingLess(x, s[i])
    {
      at := at - 1;
    }
    r := s[..at] + [x] + s[at..];
    assert s == s[..at] + s[at..];
    InsertedIsSorted(s, x, at);
  }

  lemma InsertedIsSorted(s: seq<Finding>, x: Finding, at: nat)
    requires IsSorted(s) && at <= |s| && (forall i :: at <= i < |s| ==> FindingLess(x, s[i]))
    requires at > 0 ==> !FindingLess(x, s[at - 1])
    ensures IsSorted(s[..at] + [x] + s[at..])
  {
    forall i | 0 <= i < at ensures !FindingLess(x, s[i]) {
      NotAfter(s, i, at - 1);
      FindingOrder(x, s[i], s[at - 1]);
      FindingOrder(s[i], s[at - 1], s[i]);
    }
    forall i | at <= i < |s| ensures !FindingLess(s[i], x) {
      FindingOrder(x, s[i], x);
    }
    hide FindingLess;
    var r := s[..at] + [x] + s[at..];
    forall i, j | 0 <= i < j < |r| ensures !FindingLess(r[j], r[i]) {
      assert r[i] == if i < at then s[i] else if i == at then x else s[i - 1];
      assert r[j] == if j < at then s[j] else if j == at then x else s[j - 1];
    }
  }

  lemma NotAfter(s: seq<Finding>, i: nat, j: nat)
    requires IsSorted(s) && i <= j < |s|
    ensures !FindingLess(s[j], s[i])
  {
    FindingOrder(s[i], s[i], s[i]);
    hide FindingLess;
  }

  /** The stores of every base register, and the registers in order of first use. */
  method GroupStores(insns: seq<Instruction>) returns (bases: seq<Register>, byBase: map<Register, seq<Store>>)
    ensures bases == Bases(insns)
    ensures forall b :: b in byBase <==> b in bases
    ensures forall b :: b in byBase ==> byBase[b] == StoresOf(insns, b)
  {
    hide AsStore;
    bases, byBase := [], map[];
    for i := 0 to |insns|
      invariant bases == Bases(insns[..i])
      invariant forall b :: b in byBase <==> b in bases
      invariant forall b :: b in byBase ==> byBase[b] == StoresOf(insns[..i], b)
    {
      assert insns[..i + 1][..i] == insns[..i];
      forall b ensures b in bases <==> StoresOf(insns[..i], b) != [] {
        BasesAreListedOnce(insns[..i], b);
      }
      var found := AsStore(insns[i]);
      if found.Some? {
        var (base, store) := found.value;
        if base !in byBase {
          bases, byBase := bases + [base], byBase[base := []];
        }
        byBase := byBase[base := byBase[base] + [store]];
      }
    }
    assert insns[..|insns|] == insns;
  }

  method Detect(insns: seq<Instruction>, minLength: int) returns (matches: seq<Finding>)
    ensures IsDetection(insns, minLength, matches)
  {
    var threshold := Threshold(minLength);
    var bases, byBase := GroupStores(insns);
    hide AsStore, StoresOf, Bases, MemoryAfter, IsRunList;
    var all := [];
    ghost var runs := [];
    for i := 0 to |bases|
      invariant AreRunLists(insns, threshold, bases[..i], runs)
      invariant all == Flatten(runs)
    {
      var found := Runs(byBase[bases[i]], threshold);
      all, runs := all + found, runs + [found];
      assert runs[..|runs| - 1] == runs[..i];
    }
    assert bases[..|bases|] == bases;
    matches := Sort(all);
  }
}
