/**
 * The LC-2K cache simulator as values: the block record, the geometry, and
 * one function per step of an access, composed into `AccessSpec`, the whole
 * effect of one `cache_access` call on the blocks and on main memory.
 * The imperative class in module CacheSim is proved to follow these
 * functions; the lemmas here state what the simulator does in terms of them.
 */
module CacheModel {
  import opened Bits
  import opened MainMemory

  /** Number of block records in the cache, whatever the geometry. */
  const MaxCacheSize := 256
  /** Number of words each block record can hold. */
  const MaxBlockSize := 256
  /** LC-2K word addresses are 16 bits wide. */
  const AddressBits := 16
  /** The mask that gives the first word of a block (it clears two low bits). */
  const BlockBaseMask := 0xFFFC

  datatype Option<T> = None | Some(value: T)

  /** One block record; `valid` and `dirty` are the C flags, which only ever hold 0 or 1. */
  datatype Block = Block(data: seq<int>, dirty: bool, valid: bool, lruLabel: int, setId: int, tag: int)

  /** The geometry fields of the cache record. */
  datatype Config = Config(blockSize: int, numSets: int, blocksPerSet: int,
                           tagBits: int, setBits: int, offsetBits: int)

  /** The block record before the simulator writes anything to it: all fields zero. */
  function ZeroBlock(): Block
  {
    Block(seq(MaxBlockSize, _ => 0), false, false, 0, 0, 0)
  }

  /** A geometry as `cache_init` derives it from the three parameters. */
  predicate ValidConfig(cfg: Config)
  {
    && 1 <= cfg.blockSize <= MaxBlockSize
    && 1 <= cfg.numSets
    && 1 <= cfg.blocksPerSet <= MaxBlockSize
    && cfg.offsetBits == Log2(cfg.blocksPerSet)
    && cfg.setBits == Log2(cfg.numSets)
    && cfg.tagBits == AddressBits - cfg.offsetBits - cfg.setBits
  }

  /** The fixed shape of the block array: 256 records of 256 words. */
  predicate WellFormed(bs: seq<Block>)
  {
    |bs| == MaxCacheSize && forall j :: 0 <= j < |bs| ==> |bs[j].data| == MaxBlockSize
  }

  /** Block j belongs to set j / blocksPerSet: consecutive runs of blocksPerSet blocks form a set. */
  predicate SetLayout(bs: seq<Block>, blocksPerSet: int)
    requires blocksPerSet >= 1
  {
    forall j :: 0 <= j < |bs| ==> bs[j].setId == j / blocksPerSet
  }

  /** No block is dirty. */
  predicate AllClean(bs: seq<Block>)
  {
    forall j :: 0 <= j < |bs| ==> !bs[j].dirty
  }

  // ---------------------------------------------------------------------
  // Address fields

  /**
   * The block offset: the address ANDed with the mask built from
   * `block_offset_bits_length`. Under a geometry from `cache_init` it is
   * below blocksPerSet, hence inside the 256-word data record.
   */
  function OffsetOf(cfg: Config, addr: nat): (offset: nat)
    ensures ValidConfig(cfg) ==> offset < cfg.blocksPerSet <= MaxBlockSize
  {
    MaskWidthWithin(cfg.offsetBits);
    addr % Pow2(MaskWidth(cfg.offsetBits))
  }

  /**
   * The set index: the low address bits (not shifted past the offset),
   * masked with the mask built from `set_bits_length`; below numSets.
   */
  function SetIndexOf(cfg: Config, addr: nat): (setIndex: nat)
    ensures ValidConfig(cfg) ==> setIndex < cfg.numSets
  {
    MaskWidthWithin(cfg.setBits);
    addr % Pow2(MaskWidth(cfg.setBits))
  }

  /** The tag: the low address bits, masked with the mask built from `tag_bits_length`. */
  function TagOf(cfg: Config, addr: nat): (tag: nat)
    ensures tag <= addr && tag < Pow2(MaskWidth(cfg.tagBits))
  {
    ModAtMost(addr, Pow2(MaskWidth(cfg.tagBits)));
    addr % Pow2(MaskWidth(cfg.tagBits))
  }

  /** The first address of the block to load: `addr & 0xFFFC`. */
  function BlockBase(addr: nat): (base: nat)
    ensures base <= addr
  {
    BitAnd(addr, BlockBaseMask)
  }

  /** `addr & 0xFFFC` clears the two low bits of a 16-bit address, as if every block held 4 words. */
  lemma BlockBaseClearsLowBits(addr: nat)
    requires addr <= 0xFFFF
    ensures BlockBase(addr) == addr - addr % 4
  {
    BitAndEvenMask(addr, 0x7FFE);
    BitAndEvenMask(addr / 2, 0x3FFF);
    assert addr / 2 / 2 == addr / 4;
    Pow2Values();
    BitAndLowMask(addr / 4, 14);
    DivModUnique(addr / 4, 0x4000, 0, addr / 4);
  }

  // ---------------------------------------------------------------------
  // Hit search

  /** What a hit search compares: reads match set, validity and tag; writes ignore the tag. */
  datatype Probe = ReadProbe(setIndex: int, tag: int) | WriteProbe(setIndex: int)

  predicate Hits(p: Probe, b: Block): (hit: bool)
    ensures hit ==> b.valid && b.setId == p.setIndex
    ensures hit && p.ReadProbe? ==> b.tag == p.tag
  {
    b.setId == p.setIndex && b.valid && (p.ReadProbe? ==> b.tag == p.tag)
  }

  /** The index of the first block the probe hits, or |bs| when it hits none. */
  function FirstHit(bs: seq<Block>, p: Probe): (k: nat)
    ensures k <= |bs|
    ensures k < |bs| ==> Hits(p, bs[k])
    ensures forall j :: 0 <= j < k ==> !Hits(p, bs[j])
  {
    if bs == [] then 0
    else if Hits(p, bs[0]) then 0
    else 1 + FirstHit(bs[1..], p)
  }

  // ---------------------------------------------------------------------
  // Fill, write-back, replacement

  /** The record `fill_block` leaves: words begin.. loaded from memory, valid, clean, label 0, new tag. */
  function Fill(b: Block, cells: map<int, int>, begin: int, tag: int, n: int): (f: Block)
    ensures f.valid && !f.dirty && f.lruLabel == 0 && f.tag == tag && f.setId == b.setId
    ensures |f.data| == |b.data|
    ensures forall i :: 0 <= i < |b.data| ==> f.data[i] == if i < n then Word(cells, begin + i) else b.data[i]
  {
    b.(data := seq(|b.data|, i requires 0 <= i < |b.data| =>
                     if i < n then Word(cells, begin + i) else b.data[i]),
       lruLabel := 0, valid := true, tag := tag, dirty := false)
  }

  /** Memory after storing data[0..n) at begin, begin + 1, ... in increasing order. */
  function WrittenBack(cells: map<int, int>, data: seq<int>, begin: int, n: nat): (r: map<int, int>)
    requires n <= |data|
    ensures cells.Keys <= r.Keys
    ensures forall a :: a < begin || begin + n <= a ==> Word(r, a) == Word(cells, a)
  {
    if n == 0 then cells
    else WrittenBack(cells, data, begin, n - 1)[begin + n - 1 := data[n - 1]]
  }

  /** A write-back stores word k at begin + k and changes no other cell. */
  lemma {:induction false} WrittenBackAt(cells: map<int, int>, data: seq<int>, begin: int, n: nat, a: int)
    requires n <= |data|
    ensures a in WrittenBack(cells, data, begin, n) <==> a in cells || begin <= a < begin + n
    ensures Word(WrittenBack(cells, data, begin, n), a)
            == if begin <= a < begin + n then data[a - begin] else Word(cells, a)
  {
    if n > 0 {
      WrittenBackAt(cells, data, begin, n - 1, a);
    }
  }

  /**
   * `replace_block`: a dirty target is first written back (to `begin`, the
   * base of the block being loaded), then the target is filled from memory.
   */
  function Replaced(bs: seq<Block>, cells: map<int, int>, n: nat, target: nat, begin: int, tag: int)
    : (r: (seq<Block>, map<int, int>))
    requires target < |bs| && n <= |bs[target].data|
    ensures |r.0| == |bs| && forall j :: 0 <= j < |bs| && j != target ==> r.0[j] == bs[j]
    ensures r.0[target].valid && !r.0[target].dirty && r.0[target].lruLabel == 0 && r.0[target].tag == tag
    ensures !bs[target].dirty ==> r.1 == cells
  {
    var cells' := if bs[target].dirty then WrittenBack(cells, bs[target].data, begin, n) else cells;
    (bs[target := Fill(bs[target], cells', begin, tag, n)], cells')
  }

  /**
   * Write-back goes to the address of the block being loaded, which the fill
   * then reads straight back: a dirty victim keeps its own data, and the
   * memory words it covers now hold that data.
   */
  lemma DirtyReplaceReloadsOwnData(bs: seq<Block>, cells: map<int, int>, n: nat, target: nat, begin: int, tag: int)
    requires target < |bs| && n <= |bs[target].data| && bs[target].dirty
    ensures Replaced(bs, cells, n, target, begin, tag).0[target].data == bs[target].data
    ensures forall a :: begin <= a < begin + n ==>
              Word(Replaced(bs, cells, n, target, begin, tag).1, a) == bs[target].data[a - begin]
  {
    var d := bs[target].data;
    var cells' := WrittenBack(cells, d, begin, n);
    forall a | begin <= a < begin + n
      ensures Word(cells', a) == d[a - begin]
    {
      WrittenBackAt(cells, d, begin, n, a);
    }
    var f := Fill(bs[target], cells', begin, tag, n);
    forall i | 0 <= i < |d|
      ensures f.data[i] == d[i]
    {
      if i < n {
        assert Word(cells', begin + i) == d[begin + i - begin];
      }
    }
  }

  // ---------------------------------------------------------------------
  // Miss handling

  /** An invalid block of the indexed set. */
  predicate IsEmptyWay(b: Block, setIndex: int)
  {
    b.setId == setIndex && !b.valid
  }

  predicate HasEmpty(bs: seq<Block>, setIndex: int)
  {
    exists j :: 0 <= j < |bs| && IsEmptyWay(bs[j], setIndex)
  }

  /** One block after the empty-block loop: filled, and on a write also given the written word. */
  function Refill(b: Block, cells: map<int, int>, n: int, setIndex: int, begin: int, tag: int,
                  offset: nat, pending: Option<int>): (r: Block)
    requires offset < |b.data|
    ensures r.setId == b.setId && |r.data| == |b.data|
    ensures !IsEmptyWay(b, setIndex) ==> r == b
    ensures IsEmptyWay(b, setIndex) ==> r.valid && !r.dirty && r.lruLabel == 0 && r.tag == tag
    ensures IsEmptyWay(b, setIndex) && pending.Some? ==> r.data[offset] == pending.value
  {
    if IsEmptyWay(b, setIndex) then
      var f := Fill(b, cells, begin, tag, n);
      if pending.Some? then f.(data := f.data[offset := pending.value]) else f
    else b
  }

  /** The empty-block loop: it does not stop at the first empty block, so every one of them is filled. */
  function FilledEmpty(bs: seq<Block>, cells: map<int, int>, n: int, setIndex: int, begin: int, tag: int,
                       offset: nat, pending: Option<int>): (r: seq<Block>)
    requires forall j :: 0 <= j < |bs| ==> offset < |bs[j].data|
    ensures |r| == |bs|
    ensures forall j :: 0 <= j < |bs| && bs[j].setId == setIndex ==> r[j].valid && r[j].setId == setIndex
    ensures forall j :: 0 <= j < |bs| && !IsEmptyWay(bs[j], setIndex) ==> r[j] == bs[j]
    ensures forall j :: 0 <= j < |bs| && IsEmptyWay(bs[j], setIndex) ==> r[j].tag == tag && !r[j].dirty
  {
    seq(|bs|, j requires 0 <= j < |bs| => Refill(bs[j], cells, n, setIndex, begin, tag, offset, pending))
  }

  /** With no empty block in the set, the empty-block loop changes nothing. */
  lemma NoEmptyNoChange(bs: seq<Block>, cells: map<int, int>, n: int, setIndex: int, begin: int, tag: int,
                        offset: nat, pending: Option<int>)
    requires forall j :: 0 <= j < |bs| ==> offset < |bs[j].data|
    requires !HasEmpty(bs, setIndex)
    ensures FilledEmpty(bs, cells, n, setIndex, begin, tag, offset, pending) == bs
  {
  }

  /**
   * The victim loop as written: (replace_target, max_lru) after looking at
   * blocks 0 .. n-1, both starting at 0 and updated on a strictly larger label.
   */
  function VictimScan(bs: seq<Block>, setIndex: int, n: nat): (r: (int, int))
    requires n <= |bs|
    ensures var (target, maxLru) := r;
      && maxLru >= 0
      && (forall j :: 0 <= j < n && bs[j].setId == setIndex ==> bs[j].lruLabel <= maxLru)
      && (maxLru > 0 ==> 0 <= target < n && bs[target].setId == setIndex && bs[target].lruLabel == maxLru
                         && forall j :: 0 <= j < target && bs[j].setId == setIndex ==> bs[j].lruLabel < maxLru)
      && (maxLru == 0 ==> target == 0)
  {
    if n == 0 then (0, 0)
    else
      var (target, maxLru) := VictimScan(bs, setIndex, n - 1);
      if bs[n - 1].setId == setIndex && bs[n - 1].lruLabel > maxLru then (n - 1, bs[n - 1].lruLabel)
      else (target, maxLru)
  }

  /**
   * The block the victim loop settles on: the lowest-index block of the set
   * with the largest positive label, or block 0 when the set has none.
   */
  function Victim(bs: seq<Block>, setIndex: int): (target: int)
    ensures IsMaxLabelVictim(bs, setIndex, target)
    ensures |bs| > 0 ==> 0 <= target < |bs|
  {
    VictimScan(bs, setIndex, |bs|).0
  }

  /**
   * The replacement choice: when some block of the set has a positive label,
   * the lowest-index block of the set carrying the largest label; otherwise
   * block 0, whatever set it belongs to.
   */
  predicate IsMaxLabelVictim(bs: seq<Block>, setIndex: int, target: int)
  {
    if exists j :: 0 <= j < |bs| && bs[j].setId == setIndex && bs[j].lruLabel > 0 then
      && 0 <= target < |bs|
      && bs[target].setId == setIndex
      && (forall j :: 0 <= j < |bs| && bs[j].setId == setIndex ==> bs[j].lruLabel <= bs[target].lruLabel)
      && (forall j :: 0 <= j < target && bs[j].setId == setIndex ==> bs[j].lruLabel < bs[target].lruLabel)
    else target == 0
  }

  /** The miss path: fill every empty block of the set, or replace the victim when there is none. */
  function Miss(bs: seq<Block>, cells: map<int, int>, n: nat, setIndex: int, begin: int, tag: int,
                offset: nat, pending: Option<int>): (r: (seq<Block>, map<int, int>))
    requires WellFormed(bs) && n <= MaxBlockSize && offset < MaxBlockSize
    ensures WellFormed(r.0)
    ensures forall j :: 0 <= j < |bs| ==> r.0[j].setId == bs[j].setId
  {
    if HasEmpty(bs, setIndex) then
      (FilledEmpty(bs, cells, n, setIndex, begin, tag, offset, pending), cells)
    else
      Replaced(bs, cells, n, Victim(bs, setIndex), begin, tag)
  }

  // ---------------------------------------------------------------------
  // One access

  /** The blocks and the memory after an access, and the word returned (none for a write). */
  datatype Outcome = Outcome(blocks: seq<Block>, cells: map<int, int>, reply: Option<int>)

  /** The whole effect of `cache_access(addr, isWrite, writeData)`. */
  function AccessSpec(bs: seq<Block>, cells: map<int, int>, cfg: Config, addr: int, isWrite: bool,
                      writeData: int): (o: Outcome)
    requires WellFormed(bs) && ValidConfig(cfg) && 0 <= addr <= 0xFFFF
    ensures WellFormed(o.blocks)
    ensures forall j :: 0 <= j < |bs| ==> o.blocks[j].setId == bs[j].setId
    ensures o.reply.Some? <==> !isWrite
  {
    var tag, setIndex, offset := TagOf(cfg, addr), SetIndexOf(cfg, addr), OffsetOf(cfg, addr);
    var begin := BlockBase(addr);
    if !isWrite then
      var h := FirstHit(bs, ReadProbe(setIndex, tag));
      if h < |bs| then
        Outcome(bs[h := bs[h].(lruLabel := bs[h].lruLabel + 1)], cells, Some(bs[h].data[offset]))
      else
        var (bs', cells') := Miss(bs, cells, cfg.blockSize, setIndex, begin, tag, offset, None);
        Outcome(bs', cells', Some(Word(cells', addr)))
    else
      var h := FirstHit(bs, WriteProbe(setIndex));
      if h < |bs| then
        Outcome(bs[h := bs[h].(lruLabel := bs[h].lruLabel + 1, data := bs[h].data[offset := writeData])],
                cells[addr := writeData], None)
      else
        var (bs', cells') := Miss(bs, cells, cfg.blockSize, setIndex, begin, tag, offset, Some(writeData));
        Outcome(bs', cells'[addr := writeData], None)
  }

  // ---------------------------------------------------------------------
  // What one access does

  /**
   * Read hit: when some valid block of the set has an equal tag, the
   * lowest-index one (FirstHit) has its label raised by one and its word at
   * the block offset is returned; memory and every other block are unchanged.
   */
  lemma ReadHit(bs: seq<Block>, cells: map<int, int>, cfg: Config, addr: int)
    requires WellFormed(bs) && ValidConfig(cfg) && 0 <= addr <= 0xFFFF
    ensures var h := FirstHit(bs, ReadProbe(SetIndexOf(cfg, addr), TagOf(cfg, addr)));
      var o := AccessSpec(bs, cells, cfg, addr, false, 0);
      h < |bs| ==>
        && o.reply == Some(bs[h].data[OffsetOf(cfg, addr)])
        && o.cells == cells
        && o.blocks[h] == bs[h].(lruLabel := bs[h].lruLabel + 1)
        && forall j :: 0 <= j < |bs| && j != h ==> o.blocks[j] == bs[j]
  {
  }

  /**
   * Write hit: when some valid block of the set exists, the lowest-index one,
   * whatever its tag, gets the word at the block offset and its label raised
   * by one; memory gets the word at addr; every other block is unchanged.
   */
  lemma WriteHit(bs: seq<Block>, cells: map<int, int>, cfg: Config, addr: int, writeData: int)
    requires WellFormed(bs) && ValidConfig(cfg) && 0 <= addr <= 0xFFFF
    ensures var h := FirstHit(bs, WriteProbe(SetIndexOf(cfg, addr)));
      var o := AccessSpec(bs, cells, cfg, addr, true, writeData);
      h < |bs| ==>
        && o.reply == None
        && o.cells == cells[addr := writeData]
        && o.blocks[h] == bs[h].(lruLabel := bs[h].lruLabel + 1,
                                 data := bs[h].data[OffsetOf(cfg, addr) := writeData])
        && forall j :: 0 <= j < |bs| && j != h ==> o.blocks[j] == bs[j]
  {
  }

  /**
   * Read miss with an invalid block in the set: every invalid block of the
   * set is filled from the block base with the same tag, nothing else
   * changes, and the word returned is read afresh from memory.
   */
  lemma ReadMissFillsEveryEmptyWay(bs: seq<Block>, cells: map<int, int>, cfg: Config, addr: int)
    requires WellFormed(bs) && ValidConfig(cfg) && 0 <= addr <= 0xFFFF
    ensures var setIndex := SetIndexOf(cfg, addr);
      var o := AccessSpec(bs, cells, cfg, addr, false, 0);
      FirstHit(bs, ReadProbe(setIndex, TagOf(cfg, addr))) == |bs| && HasEmpty(bs, setIndex) ==>
        && o.cells == cells
        && o.reply == Some(Word(cells, addr))
        && forall j :: 0 <= j < |bs| ==>
             o.blocks[j] == if IsEmptyWay(bs[j], setIndex)
                            then Fill(bs[j], cells, BlockBase(addr), TagOf(cfg, addr), cfg.blockSize)
                            else bs[j]
  {
  }

  /**
   * Miss with no invalid block in the set: only the victim changes; it is
   * written back first exactly when it was dirty, then filled from the block
   * base with the new tag.
   */
  lemma MissReplacesVictim(bs: seq<Block>, cells: map<int, int>, cfg: Config, addr: int, isWrite: bool,
                           writeData: int)
    requires WellFormed(bs) && ValidConfig(cfg) && 0 <= addr <= 0xFFFF
    ensures var setIndex, tag := SetIndexOf(cfg, addr), TagOf(cfg, addr);
      var p := if isWrite then WriteProbe(setIndex) else ReadProbe(setIndex, tag);
      var o := AccessSpec(bs, cells, cfg, addr, isWrite, writeData);
      var v := Victim(bs, setIndex);
      var cells' := if bs[v].dirty then WrittenBack(cells, bs[v].data, BlockBase(addr), cfg.blockSize)
                    else cells;
      FirstHit(bs, p) == |bs| && !HasEmpty(bs, setIndex) ==>
        && o.blocks == bs[v := Fill(bs[v], cells', BlockBase(addr), tag, cfg.blockSize)]
        && o.cells == if isWrite then cells'[addr := writeData] else cells'
  {
    var setIndex, tag, offset := SetIndexOf(cfg, addr), TagOf(cfg, addr), OffsetOf(cfg, addr);
    var p := if isWrite then WriteProbe(setIndex) else ReadProbe(setIndex, tag);
    if FirstHit(bs, p) == |bs| && !HasEmpty(bs, setIndex) {
      var r := Replaced(bs, cells, cfg.blockSize, Victim(bs, setIndex), BlockBase(addr), tag);
      if isWrite {
        assert Miss(bs, cells, cfg.blockSize, setIndex, BlockBase(addr), tag, offset, Some(writeData)) == r;
        assert AccessSpec(bs, cells, cfg, addr, isWrite, writeData) == Outcome(r.0, r.1[addr := writeData], None);
      } else {
        assert Miss(bs, cells, cfg.blockSize, setIndex, BlockBase(addr), tag, offset, None) == r;
        assert AccessSpec(bs, cells, cfg, addr, isWrite, writeData) == Outcome(r.0, r.1, Some(Word(r.1, addr)));
      }
    }
  }

  /**
   * No access ever sets `dirty`: from a cache with no dirty block, an access
   * leaves no dirty block and never reaches `write_back`, so a read leaves
   * memory as it was and a write changes exactly the word at addr.
   */
  lemma CleanAccess(bs: seq<Block>, cells: map<int, int>, cfg: Config, addr: int, isWrite: bool, writeData: int)
    requires WellFormed(bs) && ValidConfig(cfg) && 0 <= addr <= 0xFFFF
    requires AllClean(bs)
    ensures var o := AccessSpec(bs, cells, cfg, addr, isWrite, writeData);
      && AllClean(o.blocks)
      && o.cells == if isWrite then cells[addr := writeData] else cells
  {
    var setIndex, tag, offset := SetIndexOf(cfg, addr), TagOf(cfg, addr), OffsetOf(cfg, addr);
    MissKeepsClean(bs, cells, cfg.blockSize, setIndex, BlockBase(addr), tag, offset,
                   if isWrite then Some(writeData) else None);
  }

  /** The miss path of a cache with no dirty block sets no dirty bit and leaves memory alone. */
  lemma MissKeepsClean(bs: seq<Block>, cells: map<int, int>, n: nat, setIndex: int, begin: int, tag: int,
                       offset: nat, pending: Option<int>)
    requires WellFormed(bs) && n <= MaxBlockSize && offset < MaxBlockSize
    requires AllClean(bs)
    ensures var r := Miss(bs, cells, n, setIndex, begin, tag, offset, pending);
      AllClean(r.0) && r.1 == cells
  {
  }
}
