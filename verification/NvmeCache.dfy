/** The write-back block cache of kernel/devices/nvme.c. A transfer to or from the
    disk is a contract on whole blocks; it may fail, and then moves no data. */
module NvmeCache {
  import opened Bits
  import opened ByteSeqs

  datatype Status = NotReady | Ready | Dirty

  /** One cache slot: the block it holds, and the block's bytes. */
  datatype Slot = Slot(block: nat, status: Status, data: seq<Byte>)

  // ----- blocks of a byte sequence -----

  ghost predicate InBlocks(s: seq<Byte>, b: nat, size: nat) { b * size + size <= |s| }

  ghost function BlockOf(s: seq<Byte>, b: nat, size: nat): seq<Byte>
    requires InBlocks(s, b, size)
  {
    s[b * size..b * size + size]
  }

  lemma BlocksApart(b: nat, c: nat, size: nat)
    requires b != c
    ensures b * size + size <= c * size || c * size + size <= b * size
  {
    if b < c { MulStep(b, c, size); } else { MulStep(c, b, size); }
  }

  /** Replacing part of one block changes that block and no other. */
  lemma PatchBlock(s: seq<Byte>, b: nat, size: nat, offset: nat, d: seq<Byte>, c: nat)
    requires InBlocks(s, b, size) && InBlocks(s, c, size) && offset + |d| <= size
    ensures b * size + offset + |d| <= |s|
    ensures var s' := Patch(s, b * size + offset, d);
            BlockOf(s', c, size) == if c == b then Patch(BlockOf(s, b, size), offset, d) else BlockOf(s, c, size)
  {
    hide Patch;
    if c != b {
      BlocksApart(b, c, size);
      PatchElsewhere(s, b * size + offset, d, c * size, size);
    } else {
      PatchInside(s, b * size, size, offset, d);
    }
  }

  /** Byte `pos` lies in block `pos / size`, which exists if the sequence has whole blocks up to `pos`. */
  lemma BlockAt(pos: nat, size: nat, blocks: nat)
    requires size > 0 && pos < blocks * size
    ensures pos == pos / size * size + pos % size && pos / size < blocks
    ensures pos / size * size + size <= blocks * size
  {
    assert pos / size * size + pos % size == pos;
    if blocks <= pos / size {
      if blocks < pos / size { MulStep(blocks, pos / size, size); }
    } else {
      MulStep(pos / size, blocks, size);
    }
  }

  // ----- coherence of cache, disk and contents -----

  predicate Live(s: Slot) { s.status != NotReady }

  ghost predicate SlotOk(s: Slot, contents: seq<Byte>, size: nat, blocks: nat) {
    Live(s) ==> s.block < blocks && InBlocks(contents, s.block, size) && s.data == BlockOf(contents, s.block, size)
  }

  ghost predicate HeldDirty(cache: seq<Slot>, b: nat) {
    exists i :: 0 <= i < |cache| && cache[i].status == Dirty && cache[i].block == b
  }

  /** Block `b` of the disk is up to date, or a dirty slot holds it. */
  ghost predicate BlockSafe(cache: seq<Slot>, disk: seq<Byte>, contents: seq<Byte>, size: nat, b: nat)
  {
    && InBlocks(disk, b, size) && InBlocks(contents, b, size)
    && (HeldDirty(cache, b) || BlockOf(disk, b, size) == BlockOf(contents, b, size))
  }

  /** `contents` is what a reader should see: every live slot agrees with it, no two live slots hold
      the same block, and the disk agrees with it wherever no dirty slot does. */
  ghost predicate Coherent(cache: seq<Slot>, disk: seq<Byte>, contents: seq<Byte>, size: nat, blocks: nat) {
    && |contents| == blocks * size <= |disk|
    && (forall i :: 0 <= i < |cache| ==> SlotOk(cache[i], contents, size, blocks))
    && (forall i, j :: 0 <= i < j < |cache| && Live(cache[i]) && Live(cache[j]) ==> cache[i].block != cache[j].block)
    && (forall b: nat :: b < blocks ==> BlockSafe(cache, disk, contents, size, b))
  }

  lemma BlockFits(b: nat, blocks: nat, size: nat, s: seq<Byte>)
    requires b < blocks && blocks * size <= |s|
    ensures InBlocks(s, b, size)
  {
    MulStep(b, blocks, size);
  }

  /** With no live slot, the disk is what a reader should see. */
  lemma ColdCache(cache: seq<Slot>, disk: seq<Byte>, size: nat, blocks: nat)
    requires blocks * size <= |disk| && forall i :: 0 <= i < |cache| ==> !Live(cache[i])
    ensures Coherent(cache, disk, disk[..blocks * size], size, blocks)
  {
    hide HeldDirty;
    var contents := disk[..blocks * size];
    forall b: nat | b < blocks ensures BlockSafe(cache, disk, contents, size, b) {
      BlockFits(b, blocks, size, contents);
      BlockFits(b, blocks, size, disk);
    }
  }

  /** Writing a slot back to the disk. */
  lemma FlushKeeps(cache: seq<Slot>, disk: seq<Byte>, contents: seq<Byte>, size: nat, blocks: nat, i: nat)
    requires Coherent(cache, disk, contents, size, blocks) && i < |cache| && Live(cache[i])
    ensures var b := cache[i].block;
            && |cache[i].data| == size && b * size + size <= |disk|
            && var disk' := Patch(disk, b * size, cache[i].data);
            Coherent(cache, disk', contents, size, blocks) && BlockOf(disk', b, size) == cache[i].data
  {
    hide BlockOf, Patch;
    var b := cache[i].block;
    assert SlotOk(cache[i], contents, size, blocks);
    BlockLength(contents, b, size);
    BlockFits(b, blocks, size, disk);
    BlockLength(disk, b, size);
    var disk' := Patch(disk, b * size, cache[i].data);
    forall c: nat | c < blocks ensures BlockSafe(cache, disk', contents, size, c) {
      assert BlockSafe(cache, disk, contents, size, c);
      PatchBlock(disk, b, size, 0, cache[i].data, c);
      WholePatch(BlockOf(disk, b, size), cache[i].data, size);
    }
    assert BlockOf(disk', b, size) == cache[i].data by {
      PatchBlock(disk, b, size, 0, cache[i].data, b);
      WholePatch(BlockOf(disk, b, size), cache[i].data, size);
    }
  }

  lemma BlockLength(s: seq<Byte>, b: nat, size: nat)
    requires InBlocks(s, b, size)
    ensures |BlockOf(s, b, size)| == size
  {}

  lemma WholePatch(s: seq<Byte>, d: seq<Byte>, size: nat)
    requires |s| == size && |d| == size
    ensures Patch(s, 0, d) == d
  {}

  /** Loading a block that no live slot holds into a slot whose old block is safe on the disk. */
  lemma FillKeeps(cache: seq<Slot>, disk: seq<Byte>, contents: seq<Byte>, size: nat, blocks: nat, i: nat, b: nat)
    requires Coherent(cache, disk, contents, size, blocks) && i < |cache| && b < blocks
    requires forall j :: 0 <= j < |cache| && Live(cache[j]) ==> cache[j].block != b
    requires cache[i].status == Dirty ==>
               InBlocks(disk, cache[i].block, size) && BlockOf(disk, cache[i].block, size) == cache[i].data
    ensures InBlocks(disk, b, size)
    ensures Coherent(cache[i := Slot(b, Ready, BlockOf(disk, b, size))], disk, contents, size, blocks)
  {
    hide BlockOf;
    assert BlockSafe(cache, disk, contents, size, b);
    var cache' := cache[i := Slot(b, Ready, BlockOf(disk, b, size))];
    assert SlotOk(cache[i], contents, size, blocks);
    forall c: nat | c < blocks ensures BlockSafe(cache', disk, contents, size, c) {
      assert BlockSafe(cache, disk, contents, size, c);
      if HeldDirty(cache, c) {
        var k :| 0 <= k < |cache| && cache[k].status == Dirty && cache[k].block == c;
        if k != i { assert cache'[k].status == Dirty; }
      }
    }
  }

  /** Writing part of a live slot changes the contents and makes the slot dirty. */
  lemma StoreKeeps(cache: seq<Slot>, disk: seq<Byte>, contents: seq<Byte>, size: nat, blocks: nat, i: nat,
                   offset: nat, d: seq<Byte>)
    requires Coherent(cache, disk, contents, size, blocks) && i < |cache| && Live(cache[i]) && offset + |d| <= size
    ensures var s := cache[i];
            && |s.data| == size && s.block * size + offset + |d| <= |contents|
            && Coherent(cache[i := Slot(s.block, Dirty, Patch(s.data, offset, d))], disk,
                        Patch(contents, s.block * size + offset, d), size, blocks)
  {
    hide BlockOf, Patch;
    var s := cache[i];
    assert SlotOk(s, contents, size, blocks);
    BlockLength(contents, s.block, size);
    var cache' := cache[i := Slot(s.block, Dirty, Patch(s.data, offset, d))];
    var contents' := Patch(contents, s.block * size + offset, d);
    forall j | 0 <= j < |cache'| ensures SlotOk(cache'[j], contents', size, blocks) {
      assert SlotOk(cache[j], contents, size, blocks);
      if Live(cache[j]) { PatchBlock(contents, s.block, size, offset, d, cache[j].block); }
    }
    forall c: nat | c < blocks ensures BlockSafe(cache', disk, contents', size, c) {
      assert BlockSafe(cache, disk, contents, size, c);
      PatchBlock(contents, s.block, size, offset, d, c);
      if c == s.block {
        assert cache'[i].status == Dirty;
      } else if HeldDirty(cache, c) {
        var k :| 0 <= k < |cache| && cache[k].status == Dirty && cache[k].block == c;
        assert cache'[k] == cache[k];
      }
    }
  }

  /** The slot chosen is the first unused one or, if all are in use, the next in turn. */
  ghost predicate InTurn(cache: seq<Slot>, count: nat, index: nat, count': nat) {
    && index < |cache|
    && if cache[index].status == NotReady
       then count' == count && forall j :: 0 <= j < index ==> cache[j].status != NotReady
       else && index == (if count == |cache| then 0 else count) && count' == index + 1
            && forall j :: 0 <= j < |cache| ==> cache[j].status != NotReady
  }

  class Nvme {
    const lbaSize: nat
    const lbaCount: nat
    const lbasPerBlock: nat
    const blockSize: nat
    const blocks: nat             // whole cache blocks before the end-of-disk clamp
    var disk: seq<Byte>
    const cache: array<Slot>
    var overwriteCount: nat
    ghost var contents: seq<Byte> // what a reader of the device sees
    ghost var failures: nat       // how many transfers have reported an error

    ghost predicate Valid()
      reads this, cache
    {
      && lbaSize > 0 && lbasPerBlock > 0 && blockSize == lbasPerBlock * lbaSize
      && blocks * lbasPerBlock < lbaCount && |disk| == lbaCount * lbaSize
      && cache.Length >= 1 && overwriteCount <= cache.Length
      && Coherent(cache[..], disk, contents, blockSize, blocks)
    }

    constructor (lbaSize: nat, lbasPerBlock: nat, disk: seq<Byte>, lbaCount: nat, slots: nat)
      requires lbaSize > 0 && lbasPerBlock > 0 && lbaCount > 0 && |disk| == lbaCount * lbaSize && slots >= 1
      ensures Valid() && fresh(cache) && this.disk == disk && cache.Length == slots
      ensures blocks == (lbaCount - 1) / lbasPerBlock && blockSize == lbasPerBlock * lbaSize
      ensures |contents| == blocks * blockSize <= |disk| && contents == disk[..|contents|] && failures == 0
    {
      this.lbaSize, this.lbaCount, this.lbasPerBlock := lbaSize, lbaCount, lbasPerBlock;
      var size, n := lbasPerBlock * lbaSize, (lbaCount - 1) / lbasPerBlock;
      blockSize, blocks := size, n;
      this.disk, overwriteCount, failures := disk, 0, 0;
      cache := new Slot[slots](i => Slot(0, NotReady, []));
      Geometry(lbaSize, lbaCount, lbasPerBlock, n, 0);
      contents := disk[..n * size];
      new;
      hide Coherent;
      ColdCache(cache[..], disk, size, n);
    }

    /** `nvme_execute_read_write` as a contract: `ok` false is a command that reported an error. */
    method WriteBlocks(data: seq<Byte>, startLBA: nat, count: nat) returns (ok: bool)
      requires startLBA + count < lbaCount && |disk| == lbaCount * lbaSize && |data| == count * lbaSize
      modifies this`disk, this`failures
      ensures failures == old(failures) + if ok then 0 else 1
      ensures startLBA * lbaSize + |data| <= |old(disk)|
      ensures disk == if ok then Patch(old(disk), startLBA * lbaSize, data) else old(disk)
    {
      LbaRange(startLBA, count, lbaCount, lbaSize);
      ok := *;
      if !ok { failures := failures + 1; }
      if ok { disk := Patch(disk, startLBA * lbaSize, data); }
    }

    method ReadBlocks(startLBA: nat, count: nat) returns (ok: bool, data: seq<Byte>)
      requires startLBA + count < lbaCount && |disk| == lbaCount * lbaSize
      modifies this`failures
      ensures failures == old(failures) + if ok then 0 else 1
      ensures startLBA * lbaSize + count * lbaSize <= |disk|
      ensures ok ==> data == disk[startLBA * lbaSize..startLBA * lbaSize + count * lbaSize]
    {
      LbaRange(startLBA, count, lbaCount, lbaSize);
      ok, data := *, [];
      if !ok { failures := failures + 1; }
      if ok { data := disk[startLBA * lbaSize..startLBA * lbaSize + count * lbaSize]; }
    }

    /** `nvme_find_block`; `cache.Length` stands for -1. */
    method FindBlock(block: nat) returns (slot: nat)
      ensures slot <= cache.Length
      ensures slot < cache.Length ==> Live(cache[slot]) && cache[slot].block == block
      ensures slot == cache.Length ==> forall j :: 0 <= j < cache.Length && Live(cache[j]) ==> cache[j].block != block
    {
      slot := 0;
      while slot < cache.Length
        invariant slot <= cache.Length
        invariant forall j :: 0 <= j < slot && Live(cache[j]) ==> cache[j].block != block
      {
        if cache[slot].block == block && cache[slot].status != NotReady { return; }
        slot := slot + 1;
      }
    }

    /** The part of `nvme_cache_block` that chooses a slot: a free one, or else the next in turn, written
        back if it is dirty. */
    method TakeSlot() returns (ok: bool, index: nat)
      requires Valid()
      modifies this`disk, this`failures, this`overwriteCount
      ensures Valid() && contents == old(contents)
      ensures failures == old(failures) + if ok then 0 else 1
      ensures index < cache.Length
      ensures InTurn(cache[..], old(overwriteCount), index, overwriteCount)
      ensures ok && cache[index].status == Dirty ==>
                && InBlocks(disk, cache[index].block, blockSize)
                && BlockOf(disk, cache[index].block, blockSize) == cache[index].data
    {
      hide BlockOf;
      index := 0;
      while index < cache.Length
        invariant index <= cache.Length && overwriteCount == old(overwriteCount) && failures == old(failures)
        invariant forall j :: 0 <= j < index ==> cache[j].status != NotReady
      {
        if cache[index].status == NotReady { return true, index; }
        index := index + 1;
      }
      if overwriteCount == cache.Length { overwriteCount := 0; }
      index := overwriteCount;
      overwriteCount := overwriteCount + 1;
      ok := true;
      if cache[index].status == Dirty {
        FlushKeeps(cache[..], disk, contents, blockSize, blocks, index);
        assert SlotOk(cache[..][index], contents, blockSize, blocks);
        Geometry(lbaSize, lbaCount, lbasPerBlock, blocks, cache[index].block);
        ok := WriteBlocks(cache[index].data, blockSize / lbaSize * cache[index].block, blockSize / lbaSize);
      }
    }

    /** `nvme_cache_block`. */
    method CacheBlock(block: nat) returns (ok: bool, index: nat)
      requires Valid() && block < blocks
      requires forall j :: 0 <= j < cache.Length && Live(cache[j]) ==> cache[j].block != block
      modifies this`disk, this`failures, this`overwriteCount, cache
      ensures Valid() && contents == old(contents)
      ensures failures == old(failures) + if ok then 0 else 1
      ensures ok ==> index < cache.Length && Live(cache[index]) && cache[index].block == block
    {
      hide BlockOf, Coherent;
      ok, index := TakeSlot();
      if !ok { return; }
      Geometry(lbaSize, lbaCount, lbasPerBlock, blocks, block);
      FillKeeps(cache[..], disk, contents, blockSize, blocks, index, block);
      var data;
      ok, data := ReadBlocks(blockSize / lbaSize * block, blockSize / lbaSize);
      if !ok { return; }
      assert data == BlockOf(disk, block, blockSize) by { BlockIs(disk, block, blockSize); }
      ghost var before := cache[..];
      cache[index] := Slot(block, Ready, data);
      assert cache[..] == before[index := Slot(block, Ready, data)];
    }

    /** The slot that holds a block, loaded if need be: the common start of both loops. */
    method GetSlot(sector: nat) returns (ok: bool, slot: nat)
      requires Valid() && sector < blocks
      modifies this`disk, this`failures, this`overwriteCount, cache
      ensures Valid() && contents == old(contents)
      ensures failures == old(failures) + if ok then 0 else 1
      ensures ok ==> slot < cache.Length && Live(cache[slot]) && cache[slot].block == sector
    {
      hide Coherent;
      slot := FindBlock(sector);
      ok := true;
      if slot == cache.Length { ok, slot := CacheBlock(sector); }
    }

    /** Position, offset in the block and size of the next piece of a transfer. */
    method NextChunk(pos: nat, left: nat) returns (sector: nat, inBlock: nat, chunk: nat)
      requires Valid() && pos + left <= |contents| && left > 0
      ensures sector < blocks && sector * blockSize + inBlock == pos
      ensures 0 < chunk <= left && inBlock + chunk <= blockSize
    {
      hide Coherent;
      CoherentLength(cache[..], disk, contents, blockSize, blocks);
      BlockAt(pos, blockSize, blocks);
      sector := pos / blockSize;
      chunk := left;
      inBlock := pos % blockSize;
      if chunk > blockSize - inBlock { chunk := blockSize - inBlock; }
    }

    /** The copy out of a slot, and the copy into one. */
    method LoadChunk(slot: nat, inBlock: nat, chunk: nat) returns (piece: seq<Byte>)
      requires Valid() && slot < cache.Length && Live(cache[slot]) && inBlock + chunk <= blockSize
      ensures var pos := cache[slot].block * blockSize + inBlock;
              pos + chunk <= |contents| && piece == contents[pos..pos + chunk]
    {
      hide Coherent;
      SlotBytes(cache[..], disk, contents, blockSize, blocks, slot, inBlock, chunk);
      piece := cache[slot].data[inBlock..inBlock + chunk];
    }

    method StoreChunk(slot: nat, inBlock: nat, piece: seq<Byte>)
      requires Valid() && slot < cache.Length && Live(cache[slot]) && inBlock + |piece| <= blockSize
      modifies this`contents, cache
      ensures Valid()
      ensures var pos := old(cache[slot].block) * blockSize + inBlock;
              pos + |piece| <= |old(contents)| && contents == Patch(old(contents), pos, piece)
    {
      hide Coherent, Patch;
      StoreKeeps(cache[..], disk, contents, blockSize, blocks, slot, inBlock, piece);
      ghost var before := cache[..];
      contents := Patch(contents, cache[slot].block * blockSize + inBlock, piece);
      cache[slot] := Slot(cache[slot].block, Dirty, Patch(cache[slot].data, inBlock, piece));
      assert cache[..] == before[slot := cache[slot]];
    }

    /** `nvme_read`: what a flat byte array would return. `ok` is false exactly after a failed transfer. */
    method Read(offset: nat, size: nat) returns (ok: bool, buffer: seq<Byte>, offset': nat)
      requires Valid() && offset + size <= |contents|
      modifies this`disk, this`failures, this`overwriteCount, cache
      ensures Valid() && contents == old(contents)
      ensures failures == old(failures) + if ok then 0 else 1
      ensures if ok then buffer == contents[offset..offset + size] && offset' == offset + size else offset' == offset
    {
      hide Nvme.Valid;
      var count := 0;
      buffer := [];
      while count < size
        invariant Valid() && contents == old(contents) && count <= size && failures == old(failures)
        invariant buffer == contents[offset..offset + count]
      {
        var sector, inBlock, chunk := NextChunk(offset + count, size - count);
        var slot;
        ok, slot := GetSlot(sector);
        if !ok { return false, [], offset; }
        var piece := LoadChunk(slot, inBlock, chunk);
        buffer := buffer + piece;
        count := count + chunk;
      }
      ok, offset' := true, offset + size;
    }

    /** `nvme_write`. After a failed transfer the first `done` bytes are written. */
    method Write(offset: nat, buffer: seq<Byte>) returns (ok: bool, offset': nat, ghost done: nat)
      requires Valid() && offset + |buffer| <= |contents|
      modifies this`disk, this`failures, this`overwriteCount, this`contents, cache
      ensures Valid() && done <= |buffer|
      ensures failures == old(failures) + if ok then 0 else 1
      ensures contents == Patch(old(contents), offset, buffer[..done])
      ensures if ok then done == |buffer| && offset' == offset + |buffer| else offset' == offset
    {
      hide Nvme.Valid, Patch;
      var count := 0;
      assert contents == Patch(contents, offset, []);
      while count < |buffer|
        invariant Valid() && count <= |buffer| && |contents| == |old(contents)| && failures == old(failures)
        invariant contents == Patch(old(contents), offset, buffer[..count])
      {
        var sector, inBlock, chunk := NextChunk(offset + count, |buffer| - count);
        var slot;
        ok, slot := GetSlot(sector);
        if !ok { return false, offset, count; }
        StoreChunk(slot, inBlock, buffer[count..count + chunk]);
        PatchTwice(old(contents), offset, buffer, count, chunk);
        count := count + chunk;
      }
      ok, offset', done := true, offset + |buffer|, |buffer|;
    }

    /** Any sequence of operations on one open file, which stops early exactly if a transfer fails. */
    method Perform(ops: seq<Op>) returns (n: nat, outputs: seq<seq<Byte>>)
      requires Valid() && InDisk(ops, 0, |contents|)
      modifies this`disk, this`failures, this`overwriteCount, this`contents, cache
      ensures Valid() && n <= |ops| && failures == old(failures) + if n == |ops| then 0 else 1
      ensures outputs == FlatRun(old(contents), ops[..n]).outputs
      ensures n == |ops| ==> contents == FlatRun(old(contents), ops).bytes
    {
      hide Nvme.Valid, Patch;
      var offset: nat := 0;
      n, outputs := 0, [];
      assert ops[..0] == [];
      while n < |ops|
        invariant Valid() && n <= |ops| && |contents| == |old(contents)| && failures == old(failures)
        invariant FlatRun(old(contents), ops[..n]) == Flat(contents, offset, outputs)
        invariant InDisk(ops[n..], offset, |contents|)
      {
        assert ops[..n + 1][..n] == ops[..n] && ops[n..][1..] == ops[n + 1..];
        var ok;
        match ops[n] {
          case DoSeek(at) =>
            offset := at;
          case DoRead(size) =>
            var buffer;
            ok, buffer, offset := Read(offset, size);
            if !ok { return; }
            outputs := outputs + [buffer];
          case DoWrite(data) =>
            ghost var done;
            ok, offset, done := Write(offset, data);
            if !ok { return; }
            assert data[..done] == data;
        }
        n := n + 1;
      }
      assert ops[..n] == ops;
    }
  }

  // ----- the flat disk -----

  datatype Op = DoSeek(at: nat) | DoRead(size: nat) | DoWrite(data: seq<Byte>)

  /** A plain byte array with a file offset, and what has been read from it. */
  datatype Flat = Flat(bytes: seq<Byte>, offset: nat, outputs: seq<seq<Byte>>)

  ghost predicate InDisk(ops: seq<Op>, offset: nat, length: nat) {
    ops == [] ||
    match ops[0]
    case DoSeek(at) => InDisk(ops[1..], at, length)
    case DoRead(size) => offset + size <= length && InDisk(ops[1..], offset + size, length)
    case DoWrite(data) => offset + |data| <= length && InDisk(ops[1..], offset + |data|, length)
  }

  /** One operation on the byte array; one that does not fit does nothing. */
  ghost function FlatStep(s: Flat, op: Op): Flat {
    match op
    case DoSeek(at) => s.(offset := at)
    case DoRead(size) =>
      if s.offset + size <= |s.bytes|
      then Flat(s.bytes, s.offset + size, s.outputs + [s.bytes[s.offset..s.offset + size]]) else s
    case DoWrite(data) =>
      if s.offset + |data| <= |s.bytes| then Flat(Patch(s.bytes, s.offset, data), s.offset + |data|, s.outputs) else s
  }

  ghost function FlatRun(bytes: seq<Byte>, ops: seq<Op>): Flat {
    if ops == [] then Flat(bytes, 0, [])
    else FlatStep(FlatRun(bytes, ops[..|ops| - 1]), ops[|ops| - 1])
  }

  lemma CoherentLength(cache: seq<Slot>, disk: seq<Byte>, contents: seq<Byte>, size: nat, blocks: nat)
    requires Coherent(cache, disk, contents, size, blocks)
    ensures |contents| == blocks * size
  {}

  /** Bytes of a live slot are bytes of the contents. */
  lemma SlotBytes(cache: seq<Slot>, disk: seq<Byte>, contents: seq<Byte>, size: nat, blocks: nat, i: nat, offset: nat,
                  chunk: nat)
    requires Coherent(cache, disk, contents, size, blocks) && i < |cache| && Live(cache[i]) && offset + chunk <= size
    ensures var b := cache[i].block;
            && |cache[i].data| == size && b * size + offset + chunk <= |contents|
            && cache[i].data[offset..offset + chunk] == contents[b * size + offset..b * size + offset + chunk]
  {
    hide BlockOf, BlockSafe;
    assert SlotOk(cache[i], contents, size, blocks);
    BlockIs(contents, cache[i].block, size);
    SubSlice(contents, cache[i].block * size, size, offset, chunk);
  }

  lemma BlockIs(s: seq<Byte>, b: nat, size: nat)
    requires InBlocks(s, b, size)
    ensures BlockOf(s, b, size) == s[b * size..b * size + size]
  {}

  lemma LbaRange(start: nat, count: nat, lbaCount: nat, lbaSize: nat)
    requires start + count < lbaCount
    ensures start * lbaSize + count * lbaSize <= lbaCount * lbaSize
  {
    assert start * lbaSize + count * lbaSize == (start + count) * lbaSize;
    MulStep(start + count, lbaCount, lbaSize);
  }

  /** The LBA range of a cache block is its byte range. */
  lemma Geometry(lbaSize: nat, lbaCount: nat, lbasPerBlock: nat, blocks: nat, b: nat)
    requires lbaSize > 0 && lbasPerBlock > 0
    requires blocks * lbasPerBlock < lbaCount
    ensures var size := lbasPerBlock * lbaSize;
            && size / lbaSize == lbasPerBlock && blocks * size <= lbaCount * lbaSize
            && lbasPerBlock * b * lbaSize == b * size
            && (b < blocks ==> lbasPerBlock * b + lbasPerBlock < lbaCount)
  {
    var size := lbasPerBlock * lbaSize;
    Quotient(size, lbasPerBlock, 0, lbaSize);
    assert blocks * size == blocks * lbasPerBlock * lbaSize;
    MulStep(blocks * lbasPerBlock, lbaCount, lbaSize);
    if b < blocks { MulStep(b, blocks, lbasPerBlock); }
  }
}