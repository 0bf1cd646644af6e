/**
 * The cache record of the LC-2K simulator as an object: 256 block records
 * updated in place, the geometry fields, and the main memory it reads and
 * writes through. Each method follows one C function or one loop of
 * `cache_access`, and is proved to have the effect the matching function of
 * module CacheModel describes.
 */
module CacheSim {
  import opened Bits
  import opened MainMemory
  import opened CacheModel

  /**
   * The mask loop of `cache_access`: 0xFFFF shifted right once per step while
   * the step count is below 16 - bits. The result is a run of
   * MaskWidth(bits) one-bits, so ANDing with it keeps that many low bits.
   */
  method ShiftMask(bits: int) returns (mask: nat)
    ensures mask == Pow2(MaskWidth(bits)) - 1
  {
    mask := 0xFFFF;
    Pow2Values();
    var i := 0;
    while i < AddressBits - bits
      invariant 0 <= i
      invariant AddressBits - bits > 0 ==> i <= AddressBits - bits
      invariant AddressBits - bits <= 0 ==> i == 0
      invariant mask == ShiftRight(Pow2(AddressBits) - 1, i)
    {
      mask := mask / 2;
      i := i + 1;
    }
    ShiftRightOnes(AddressBits, i);
  }

  /**
   * One step of the `set`/`count` counters of `cache_init`: when block i is
   * reached, the counters (after the reset test) are i / b and i % b.
   */
  lemma SetCounterStep(i: nat, b: int, currentSet: int, count: int)
    requires b >= 1
    requires i == 0 ==> currentSet == 0 && count == 0
    requires i > 0 ==> currentSet == (i - 1) / b && count == (i - 1) % b + 1
    ensures (if count == b then currentSet + 1 else currentSet) == i / b
    ensures (if count == b then 0 else count) == i % b
  {
    if i == 0 {
      DivModUnique(0, b, 0, 0);
    } else {
      var q, r := (i - 1) / b, (i - 1) % b;
      assert i == b * q + r + 1;
      if r + 1 == b {
        assert i == b * (q + 1) + 0;
        DivModUnique(i, b, q + 1, 0);
      } else {
        DivModUnique(i, b, q, r + 1);
      }
    }
  }

  /** A mask built from a bit length keeps the address bits below that length. */
  lemma MaskKeepsLowBits(addr: nat, bits: int, mask: nat)
    requires mask == Pow2(MaskWidth(bits)) - 1
    ensures BitAnd(addr, mask) == addr % Pow2(MaskWidth(bits))
  {
    BitAndLowMask(addr, MaskWidth(bits));
  }

  class Cache {
    /** The main memory that `mem_access` reaches. */
    const mem: Memory
    const blocks: array<Block>
    var blockSize: int
    var numSets: int
    var blocksPerSet: int
    var tagBits: int
    var setBits: int
    var offsetBits: int

    function Cfg(): Config
      reads this
    {
      Config(blockSize, numSets, blocksPerSet, tagBits, setBits, offsetBits)
    }

    /** The state `cache_init` establishes and every access keeps. */
    ghost predicate Valid()
      reads this, blocks
    {
      && WellFormed(blocks[..])
      && ValidConfig(Cfg())
      && SetLayout(blocks[..], blocksPerSet)
    }

    /** The zero-initialised cache record, before `cache_init`. */
    constructor (memory: Memory)
      ensures mem == memory && fresh(blocks)
      ensures blocks[..] == seq(MaxCacheSize, _ => ZeroBlock())
      ensures WellFormed(blocks[..])
      ensures Cfg() == Config(0, 0, 0, 0, 0, 0)
    {
      mem := memory;
      blocks := new Block[MaxCacheSize](_ => ZeroBlock());
      blockSize, numSets, blocksPerSet := 0, 0, 0;
      tagBits, setBits, offsetBits := 0, 0, 0;
    }

    /**
     * `cache_init`: records the geometry, derives the bit lengths, and marks
     * every block invalid, clean and with label 0, block i in set
     * i / blocksPerSet. Data and tags are left as they were.
     */
    method Init(blockSize: int, numSets: int, blocksPerSet: int)
      requires WellFormed(blocks[..])
      requires 1 <= blockSize <= MaxBlockSize && 1 <= numSets && 1 <= blocksPerSet <= MaxBlockSize
      modifies this, blocks
      ensures Valid() && AllClean(blocks[..])
      ensures this.blockSize == blockSize && this.numSets == numSets && this.blocksPerSet == blocksPerSet
      ensures offsetBits == Log2(blocksPerSet) && setBits == Log2(numSets)
      ensures tagBits == AddressBits - offsetBits - setBits
      ensures forall j :: 0 <= j < blocks.Length ==>
                blocks[j] == old(blocks[j]).(dirty := false, valid := false, lruLabel := 0,
                                             setId := j / blocksPerSet)
    {
      this.blockSize := blockSize;
      this.numSets := numSets;
      this.blocksPerSet := blocksPerSet;
      offsetBits := Log2(blocksPerSet);
      setBits := Log2(numSets);
      tagBits := AddressBits - offsetBits - setBits;

      var currentSet, count := 0, 0;
      var i := 0;
      while i < MaxCacheSize
        modifies blocks
        invariant 0 <= i <= MaxCacheSize
        invariant i == 0 ==> currentSet == 0 && count == 0
        invariant i > 0 ==> currentSet == (i - 1) / blocksPerSet && count == (i - 1) % blocksPerSet + 1
        invariant forall j :: 0 <= j < i ==>
                    blocks[j] == old(blocks[j]).(dirty := false, valid := false, lruLabel := 0,
                                                 setId := j / blocksPerSet)
        invariant forall j :: i <= j < MaxCacheSize ==> blocks[j] == old(blocks[j])
      {
        SetCounterStep(i, blocksPerSet, currentSet, count);
        if count == blocksPerSet {
          count := 0;
          currentSet := currentSet + 1;
        }
        blocks[i] := blocks[i].(dirty := false, valid := false, lruLabel := 0, setId := currentSet);
        count := count + 1;
        i := i + 1;
      }
    }

    /**
     * The mask loops and the three ANDs at the top of `cache_access`: each
     * field is the address masked to the low bits its bit length allows.
     */
    method SplitAddress(addr: int) returns (tag: int, setIndex: int, offset: int)
      requires ValidConfig(Cfg()) && 0 <= addr <= 0xFFFF
      ensures tag == TagOf(Cfg(), addr) && setIndex == SetIndexOf(Cfg(), addr)
      ensures offset == OffsetOf(Cfg(), addr)
      ensures 0 <= offset < blocksPerSet && 0 <= setIndex < numSets
    {
      var offsetMask := ShiftMask(offsetBits);
      var setMask := ShiftMask(setBits);
      var tagMask := ShiftMask(tagBits);
      offset := BitAnd(addr, offsetMask);
      setIndex := BitAnd(addr, setMask);
      tag := BitAnd(addr, tagMask);
      MaskKeepsLowBits(addr, offsetBits, offsetMask);
      MaskKeepsLowBits(addr, setBits, setMask);
      MaskKeepsLowBits(addr, tagBits, tagMask);
    }

    /** The hit-search loops of `cache_access`: the first block the probe hits, or 256. */
    method FindHit(probe: Probe) returns (h: int)
      ensures h == FirstHit(blocks[..], probe)
    {
      var i := 0;
      while i < blocks.Length
        invariant 0 <= i <= blocks.Length
        invariant forall j :: 0 <= j < i ==> !Hits(probe, blocks[j])
      {
        if Hits(probe, blocks[i]) {
          return i;
        }
        i := i + 1;
      }
      return blocks.Length;
    }

    /** The replacement loops of `cache_access`. */
    method ChooseVictim(setIndex: int) returns (target: int)
      ensures target == Victim(blocks[..], setIndex)
      ensures IsMaxLabelVictim(blocks[..], setIndex, target)
    {
      target := 0;
      var maxLru := 0;
      var i := 0;
      while i < blocks.Length
        invariant 0 <= i <= blocks.Length
        invariant (target, maxLru) == VictimScan(blocks[..], setIndex, i)
      {
        if blocks[i].setId == setIndex && blocks[i].lruLabel > maxLru {
          maxLru := blocks[i].lruLabel;
          target := i;
        }
        i := i + 1;
      }
    }

    /**
     * `fill_block`: loads blockSize words from addr, addr + 1, ... into the
     * target and marks it valid, clean, label 0, with the new tag. Words past
     * blockSize, the set, the other blocks and memory are unchanged.
     */
    method FillBlock(target: int, addr: int, tag: int)
      requires Valid() && 0 <= target < blocks.Length
      modifies blocks
      ensures Valid()
      ensures blocks[..] == old(blocks[..])[target := Fill(old(blocks[target]), mem.cells, addr, tag, blockSize)]
      ensures blocks[target].valid && !blocks[target].dirty
      ensures blocks[target].lruLabel == 0 && blocks[target].tag == tag
      ensures forall i :: 0 <= i < blockSize ==> blocks[target].data[i] == Word(mem.cells, addr + i)
      ensures forall i :: blockSize <= i < MaxBlockSize ==> blocks[target].data[i] == old(blocks[target].data[i])
      ensures mem.cells == old(mem.cells)
    {
      ghost var b0 := blocks[target];
      var begin := addr;
      var i := 0;
      while i < blockSize
        invariant 0 <= i <= blockSize && begin == addr + i
        invariant forall j :: 0 <= j < blocks.Length && j != target ==> blocks[j] == old(blocks[j])
        invariant blocks[target] == b0.(data := blocks[target].data)
        invariant |blocks[target].data| == MaxBlockSize
        invariant forall k :: 0 <= k < MaxBlockSize ==>
                    blocks[target].data[k] == if k < i then Word(mem.cells, addr + k) else b0.data[k]
      {
        var w := mem.Read(begin);
        begin := begin + 1;
        blocks[target] := blocks[target].(data := blocks[target].data[i := w]);
        i := i + 1;
      }
      blocks[target] := blocks[target].(lruLabel := 0, valid := true, tag := tag, dirty := false);
      assert blocks[target] == Fill(b0, mem.cells, addr, tag, blockSize);
      assert blocks[..] == old(blocks[..])[target := Fill(b0, mem.cells, addr, tag, blockSize)];
    }

    /**
     * `write_back`: stores data[0 .. blockSize) of the target at addr,
     * addr + 1, ... in increasing order; no block changes.
     */
    method WriteBack(target: int, addr: int)
      requires Valid() && 0 <= target < blocks.Length
      modifies mem
      ensures mem.cells == WrittenBack(old(mem.cells), blocks[target].data, addr, blockSize)
    {
      var begin := addr;
      var i := 0;
      while i < blockSize
        invariant 0 <= i <= blockSize && begin == addr + i
        invariant mem.cells == WrittenBack(old(mem.cells), blocks[target].data, addr, i)
      {
        mem.Write(begin, blocks[target].data[i]);
        begin := begin + 1;
        i := i + 1;
      }
    }

    /** `replace_block`: write-back only if the target is dirty, and before the fill. */
    method ReplaceBlock(target: int, addr: int, tag: int)
      requires Valid() && 0 <= target < blocks.Length
      modifies blocks, mem
      ensures Valid()
      ensures (blocks[..], mem.cells) == Replaced(old(blocks[..]), old(mem.cells), blockSize, target, addr, tag)
    {
      if blocks[target].dirty {
        WriteBack(target, addr);
      }
      FillBlock(target, addr, tag);
    }

    /**
     * The empty-block loops of `cache_access`: every invalid block of the set
     * is filled (on a write also given the written word); the result says
     * whether there was none.
     */
    method FillEmptyBlocks(setIndex: int, begin: int, tag: int, offset: int, pending: Option<int>)
      returns (noEmptyBlock: bool)
      requires Valid() && 0 <= offset < MaxBlockSize
      modifies blocks
      ensures Valid()
      ensures noEmptyBlock == !HasEmpty(old(blocks[..]), setIndex)
      ensures blocks[..] == FilledEmpty(old(blocks[..]), mem.cells, blockSize, setIndex, begin, tag, offset, pending)
    {
      noEmptyBlock := true;
      var i := 0;
      while i < blocks.Length
        invariant 0 <= i <= blocks.Length
        invariant Valid()
        invariant noEmptyBlock == !exists j :: 0 <= j < i && IsEmptyWay(old(blocks[j]), setIndex)
        invariant forall j :: 0 <= j < i ==>
                    blocks[j] == Refill(old(blocks[j]), mem.cells, blockSize, setIndex, begin, tag, offset, pending)
        invariant forall j :: i <= j < blocks.Length ==> blocks[j] == old(blocks[j])
      {
        if blocks[i].setId == setIndex && !blocks[i].valid {
          noEmptyBlock := false;
          FillBlock(i, begin, tag);
          if pending.Some? {
            blocks[i] := blocks[i].(data := blocks[i].data[offset := pending.value]);
          }
        }
        i := i + 1;
      }
      assert blocks[..] == FilledEmpty(old(blocks[..]), mem.cells, blockSize, setIndex, begin, tag, offset, pending);
    }

    /**
     * `cache_access`: the new blocks, the new memory and the word returned
     * are those `AccessSpec` gives; a write returns no defined word.
     */
    method Access(addr: int, isWrite: bool, writeData: int) returns (reply: Option<int>)
      requires Valid() && 0 <= addr <= 0xFFFF
      modifies blocks, mem
      ensures Valid()
      ensures Outcome(blocks[..], mem.cells, reply)
              == AccessSpec(old(blocks[..]), old(mem.cells), Cfg(), addr, isWrite, writeData)
      ensures AllClean(old(blocks[..])) ==> AllClean(blocks[..])
    {
      ghost var bs, cells := blocks[..], mem.cells;
      var tag, setIndex, offset := SplitAddress(addr);
      var begin := BlockBase(addr);
      if !isWrite {
        reply := ReadAccess(addr, tag, setIndex, offset, begin);
      } else {
        WriteAccess(addr, writeData, tag, setIndex, offset, begin);
        reply := None;
      }
      ghost var o := AccessSpec(bs, cells, Cfg(), addr, isWrite, writeData);
      assert Outcome(blocks[..], mem.cells, reply) == o;
      if AllClean(bs) {
        CleanAccess(bs, cells, Cfg(), addr, isWrite, writeData);
        assert AllClean(o.blocks);
      }
    }

    /**
     * The miss path of `cache_access`: fill the invalid blocks of the set or,
     * when there are none, replace the victim.
     */
    method HandleMiss(setIndex: int, begin: int, tag: int, offset: int, pending: Option<int>)
      requires Valid() && 0 <= offset < MaxBlockSize
      modifies blocks, mem
      ensures Valid()
      ensures (blocks[..], mem.cells)
              == Miss(old(blocks[..]), old(mem.cells), blockSize, setIndex, begin, tag, offset, pending)
    {
      ghost var bs, cells := blocks[..], mem.cells;
      var noEmptyBlock := FillEmptyBlocks(setIndex, begin, tag, offset, pending);
      if noEmptyBlock {
        NoEmptyNoChange(bs, cells, blockSize, setIndex, begin, tag, offset, pending);
        var target := ChooseVictim(setIndex);
        ReplaceBlock(target, begin, tag);
      }
    }

    /** The read branch of `cache_access` (write_flag == 0). */
    method ReadAccess(addr: int, tag: int, setIndex: int, offset: int, begin: int) returns (reply: Option<int>)
      requires Valid() && 0 <= addr <= 0xFFFF
      requires tag == TagOf(Cfg(), addr) && setIndex == SetIndexOf(Cfg(), addr)
      requires offset == OffsetOf(Cfg(), addr) && 0 <= offset < MaxBlockSize && begin == BlockBase(addr)
      modifies blocks, mem
      ensures Valid()
      ensures Outcome(blocks[..], mem.cells, reply)
              == AccessSpec(old(blocks[..]), old(mem.cells), Cfg(), addr, false, 0)
    {
      ghost var bs, cells := blocks[..], mem.cells;
      var h := FindHit(ReadProbe(setIndex, tag));
      if h < blocks.Length {
        assert AccessSpec(bs, cells, Cfg(), addr, false, 0)
               == Outcome(bs[h := bs[h].(lruLabel := bs[h].lruLabel + 1)], cells, Some(bs[h].data[offset]));
        blocks[h] := blocks[h].(lruLabel := blocks[h].lruLabel + 1);
        return Some(blocks[h].data[offset]);
      }
      HandleMiss(setIndex, begin, tag, offset, None);
      assert AccessSpec(bs, cells, Cfg(), addr, false, 0)
             == Outcome(blocks[..], mem.cells, Some(Word(mem.cells, addr)));
      var w := mem.Read(addr);
      reply := Some(w);
    }

    /** The write branch of `cache_access` (write_flag == 1); its reply is undefined in C. */
    method WriteAccess(addr: int, writeData: int, tag: int, setIndex: int, offset: int, begin: int)
      requires Valid() && 0 <= addr <= 0xFFFF
      requires tag == TagOf(Cfg(), addr) && setIndex == SetIndexOf(Cfg(), addr)
      requires offset == OffsetOf(Cfg(), addr) && 0 <= offset < MaxBlockSize && begin == BlockBase(addr)
      modifies blocks, mem
      ensures Valid()
      ensures Outcome(blocks[..], mem.cells, None)
              == AccessSpec(old(blocks[..]), old(mem.cells), Cfg(), addr, true, writeData)
    {
      ghost var bs, cells := blocks[..], mem.cells;
      var h := FindHit(WriteProbe(setIndex));
      if h < blocks.Length {
        blocks[h] := blocks[h].(lruLabel := blocks[h].lruLabel + 1,
                                data := blocks[h].data[offset := writeData]);
        mem.Write(addr, writeData);
        return;
      }
      HandleMiss(setIndex, begin, tag, offset, Some(writeData));
      mem.Write(addr, writeData);
    }
  }
}
