/** Reading a file of a FAT32 volume (kernel/fs/fat32/fat32.c): clusters are found by following the file
    allocation table, and are read piecewise. */
module Fat32 {
  import opened Bits
  import opened ByteSeqs

  const END_OF_CHAIN := 0x0FFF_FFF8

  /** The numbers taken from the boot sector, and the device. */
  datatype Volume = Volume(disk: seq<Byte>, reservedSectors: nat, sectorsPerFat: nat, sectorsPerCluster: nat,
                           beginCluster: nat)

  function ClusterSize(v: Volume): nat { v.sectorsPerCluster * 512 }

  function FatLength(v: Volume): nat { v.sectorsPerFat * 512 }

  /** The sizes are what the boot sector can hold, and the table lies on the device. */
  ghost predicate GoodVolume(v: Volume) {
    && 0 < v.sectorsPerCluster < 256 && FatLength(v) < 0x1_0000_0000
    && v.reservedSectors * 512 + FatLength(v) <= |v.disk|
  }

  /** The table: little-endian words of 32 bits. */
  function FatEntry(v: Volume, i: nat): nat
    requires GoodVolume(v) && i < FatLength(v) / 4
  {
    var at := v.reservedSectors * 512 + 4 * i;
    FromBytes(v.disk[at..at + 4])
  }

  /** 32 bits from four bytes, the lowest first. */
  ghost function Dword(a: nat, b: nat, c: nat, d: nat): nat { a + 0x100 * b + 0x1_0000 * c + 0x100_0000 * d }

  /** Where entry `i` lies on the device, and which byte counts for how much. */
  lemma FatEntryBytes(v: Volume, i: nat)
    requires GoodVolume(v) && i < FatLength(v) / 4
    ensures var first := v.reservedSectors * 512;
            && first + 4 * i + 3 < |v.disk|
            && FatEntry(v, i) == Dword(v.disk[first + 4 * i], v.disk[first + 4 * i + 1],
                                       v.disk[first + 4 * i + 2], v.disk[first + 4 * i + 3])
  {
    var at := v.reservedSectors * 512 + 4 * i;
    FourBytes(v.disk[at..at + 4]);
  }

  lemma FourBytes(s: seq<Byte>)
    requires |s| == 4
    ensures FromBytes(s) == Dword(s[0], s[1], s[2], s[3])
  {
    assert s[1..][1..] == s[2..] && s[2..][1..] == s[3..] && s[3..][1..] == [];
    assert FromBytes(s[3..]) == s[3] + 0x100 * FromBytes([]);
    assert FromBytes(s[2..]) == s[2] + 0x100 * FromBytes(s[3..]);
    assert FromBytes(s[1..]) == s[1] + 0x100 * FromBytes(s[2..]);
  }

  /** fat32_get_next_cluster; 0 ends the chain. */
  function NextCluster(v: Volume, cluster: nat): nat
    requires GoodVolume(v)
  {
    if cluster >= FatLength(v) / 4 then 0
    else if FatEntry(v, cluster) >= END_OF_CHAIN then 0
    else FatEntry(v, cluster)
  }

  /** The next cluster as the FAT32 specification has it: the low 28 bits of the entry; the upper four are
      reserved and to be ignored. */
  function MaskedNext(v: Volume, cluster: nat): nat
    requires GoodVolume(v) && cluster < FatLength(v) / 4
  {
    var e := FatEntry(v, cluster) % 0x1000_0000;
    if e >= END_OF_CHAIN then 0 else e
  }

  /** The code does not mask the entry. It agrees with the specification exactly if the reserved bits are
      clear, or the rest of the entry ends the chain anyway. */
  lemma ReservedBitsIff(v: Volume, cluster: nat)
    requires GoodVolume(v) && cluster < FatLength(v) / 4
    ensures NextCluster(v, cluster) == MaskedNext(v, cluster) <==>
            FatEntry(v, cluster) < 0x1000_0000 || MaskedNext(v, cluster) == 0
  {
    hide FatEntry;
  }

  /** A table behind one reserved sector in which a reserved bit cuts a chain short: the entry of cluster 2
      is 0x10000003. */
  lemma ReservedBitCutsChain()
    ensures exists v :: && GoodVolume(v) && v.reservedSectors == 1 && FatLength(v) >= 12
                        && MaskedNext(v, 2) == 3 && NextCluster(v, 2) == 0
  {
    var disk: seq<Byte> := seq(1024, i => if i == 520 then 3 else if i == 523 then 0x10 else 0);
    var v := Volume(disk, 1, 1, 1, 2);
    FatEntryBytes(v, 2);
    assert FatEntry(v, 2) == 0x1000_0003;
    hide FatEntry;
  }

  /** CLUSTER_TO_OFFSET: clusters are numbered from 2. */
  function ClusterOffset(v: Volume, cluster: nat): nat
    requires cluster >= 2
  {
    (v.beginCluster + (cluster - 2) * v.sectorsPerCluster) * 512
  }

  /** Cluster 2 is the first, and each cluster starts where the one before it ends. */
  lemma ClusterStarts(v: Volume, cluster: nat)
    requires cluster >= 2
    ensures ClusterOffset(v, 2) == v.beginCluster * 512
    ensures ClusterOffset(v, cluster + 1) == ClusterOffset(v, cluster) + ClusterSize(v)
    ensures ClusterOffset(v, cluster) == v.beginCluster * 512 + (cluster - 2) * ClusterSize(v)
  {
    var x, n := cluster - 2, v.sectorsPerCluster;
    assert (x + 1) * n == x * n + n;
    assert x * (n * 512) == x * n * 512;
  }

  // ----- the file -----

  /** The link from one cluster to the next by the specification, with the reserved bits clear, which is
      what the code needs. */
  ghost predicate Link(v: Volume, c: nat, d: nat)
    requires GoodVolume(v)
  {
    && c < FatLength(v) / 4
    && MaskedNext(v, c) == d && d >= 2 && FatEntry(v, c) < 0x1000_0000
  }

  ghost predicate OnDisk(v: Volume, c: nat) { c >= 2 && ClusterOffset(v, c) + ClusterSize(v) <= |v.disk| }

  /** A chain of clusters, each linked to the next. */
  ghost predicate Chain(v: Volume, chain: seq<nat>)
    requires GoodVolume(v)
  {
    && (forall i :: 0 <= i < |chain| ==> OnDisk(v, chain[i]))
    && (forall i :: 0 < i < |chain| ==> Link(v, chain[i - 1], chain[i]))
  }

  ghost function Cluster(v: Volume, c: nat): seq<Byte>
    requires OnDisk(v, c)
  {
    v.disk[ClusterOffset(v, c)..ClusterOffset(v, c) + ClusterSize(v)]
  }

  ghost function Flatten(blocks: seq<seq<Byte>>): seq<Byte> {
    if blocks == [] then [] else blocks[0] + Flatten(blocks[1..])
  }

  lemma {:induction false} FlatLength(blocks: seq<seq<Byte>>, cs: nat)
    requires forall i :: 0 <= i < |blocks| ==> |blocks[i]| == cs
    ensures |Flatten(blocks)| == |blocks| * cs
  {
    if blocks != [] {
      FlatLength(blocks[1..], cs);
      assert |blocks| * cs == (|blocks| - 1) * cs + cs;
    }
  }

  lemma {:induction false} FlatBlock(blocks: seq<seq<Byte>>, cs: nat, k: nat, at: nat)
    requires (forall i :: 0 <= i < |blocks| ==> |blocks[i]| == cs) && k < |blocks| && at == k * cs
    ensures at + cs <= |Flatten(blocks)| && Flatten(blocks)[at..at + cs] == blocks[k]
    decreases k
  {
    if k > 0 {
      assert at - cs == (k - 1) * cs by { MulStep(k - 1, k, cs); assert k * cs == (k - 1) * cs + cs; }
      FlatBlock(blocks[1..], cs, k - 1, at - cs);
      var rest := Flatten(blocks[1..]);
      assert Flatten(blocks)[at..at + cs] == rest[at - cs..at];
    }
  }

  ghost function Clusters(v: Volume, chain: seq<nat>): (r: seq<seq<Byte>>)
    requires forall i :: 0 <= i < |chain| ==> OnDisk(v, chain[i])
    ensures |r| == |chain| && forall i :: 0 <= i < |r| ==> r[i] == Cluster(v, chain[i])
  {
    seq(|chain|, i requires 0 <= i < |chain| => Cluster(v, chain[i]))
  }

  /** The bytes of the clusters, one after the other. */
  ghost function Joined(v: Volume, chain: seq<nat>): seq<Byte>
    requires forall i :: 0 <= i < |chain| ==> OnDisk(v, chain[i])
  {
    Flatten(Clusters(v, chain))
  }

  /** A piece of the file inside one cluster is a piece of the device. */
  lemma Piece(v: Volume, chain: seq<nat>, k: nat, at: nat, o: nat, n: nat)
    requires (forall i :: 0 <= i < |chain| ==> OnDisk(v, chain[i])) && k < |chain| && o + n <= ClusterSize(v)
    requires at == k * ClusterSize(v)
    ensures at + o + n <= |Joined(v, chain)|
    ensures var from := ClusterOffset(v, chain[k]) + o;
            Joined(v, chain)[at + o..at + o + n] == v.disk[from..from + n]
  {
    hide ClusterOffset, Flatten;
    var cs := ClusterSize(v);
    FlatBlock(Clusters(v, chain), cs, k, at);
    SubSlice(Joined(v, chain), at, cs, o, n);
    SubSlice(v.disk, ClusterOffset(v, chain[k]), cs, o, n);
  }

  // ----- reading -----

  /** How many bytes a read of `n` at `offset` gets. */
  function Clip(fileSize: nat, offset: nat, n: nat): nat
    requires offset <= fileSize
  {
    if offset + n >= fileSize then fileSize - offset else n
  }

  /** The same as fat32_read computes it, in 64-bit arithmetic. */
  function ReadSize(fileSize: nat, offset: nat, n: nat): nat {
    if (offset + n) % TWO64 >= fileSize then (fileSize - offset) % TWO64 else n
  }

  /** It is right exactly if the offset is in the file and the end of the read can be computed. */
  lemma ReadSizeRightIff(fileSize: nat, offset: nat, n: nat)
    requires fileSize < 0x1_0000_0000 && offset < TWO64 && n < TWO64
    ensures ReadSize(fileSize, offset, n) == (if offset <= fileSize then Clip(fileSize, offset, n) else 0)
       <==> offset <= fileSize && offset + n < TWO64
  {
  }

  /** Reading `a` bytes and then `b` is reading `a + b`. */
  lemma ReadTwice(contents: seq<Byte>, offset: nat, a: nat, b: nat)
    requires offset <= |contents|
    ensures var first := Clip(|contents|, offset, a);
      var second := Clip(|contents|, offset + first, b);
      && first + second == Clip(|contents|, offset, a + b)
      && contents[offset..offset + first] + contents[offset + first..offset + first + second]
         == contents[offset..offset + Clip(|contents|, offset, a + b)]
  {
  }

  ghost predicate LongEnough(v: Volume, chain: seq<nat>, size: nat) {
    GoodVolume(v) && Chain(v, chain) && size <= |chain| * ClusterSize(v)
  }

  ghost function FileContents(v: Volume, chain: seq<nat>, size: nat): (r: seq<Byte>)
    requires LongEnough(v, chain, size)
    ensures |r| == size
  {
    JoinedLength(v, chain);
    Joined(v, chain)[..size]
  }

  /** Position `pos` of the file is byte `o` of cluster `k` of the chain. */
  ghost predicate At(v: Volume, chain: seq<nat>, pos: nat, k: nat, o: nat) {
    k < |chain| && o < ClusterSize(v) && pos == k * ClusterSize(v) + o
  }

  function Quot(a: nat, d: nat): nat
    requires d > 0
  {
    a / d
  }

  function Rest(a: nat, d: nat): (r: nat)
    requires d > 0
    ensures r < d
  {
    a % d
  }

  lemma Locate(v: Volume, chain: seq<nat>, size: nat, pos: nat)
    requires LongEnough(v, chain, size) && pos < size
    ensures At(v, chain, pos, Quot(pos, ClusterSize(v)), Rest(pos, ClusterSize(v)))
  {
    var cs := ClusterSize(v);
    Below(pos, |chain|, cs);
  }

  lemma Below(pos: nat, m: nat, cs: nat)
    requires cs > 0 && pos < m * cs
    ensures pos == Quot(pos, cs) * cs + Rest(pos, cs) && Quot(pos, cs) < m
  {
    assert pos == pos / cs * cs + pos % cs;
    if m < Quot(pos, cs) { MulStep(m, Quot(pos, cs), cs); }
  }

  /** Byte `o` of cluster `k` of the file, counted from the start of the device. */
  ghost predicate DeviceByte(v: Volume, chain: seq<nat>, k: nat, o: nat, b: Byte)
    requires k < |chain|
  {
    && chain[k] >= 2
    && var at := v.beginCluster * 512 + (chain[k] - 2) * (v.sectorsPerCluster * 512) + o;
    at < |v.disk| && b == v.disk[at]
  }

  /** Every byte of the file is where the numbers of the boot sector put it. */
  lemma FileByte(v: Volume, chain: seq<nat>, size: nat, pos: nat, k: nat, o: nat)
    requires LongEnough(v, chain, size) && At(v, chain, pos, k, o) && pos < size
    ensures DeviceByte(v, chain, k, o, FileContents(v, chain, size)[pos])
  {
    InChain(v, chain, size, pos, k, o);
    ClusterStarts(v, chain[k]);
    FilePrefix(v, chain, size);
    hide ClusterOffset, Joined, FileContents, LongEnough;
    InDisk(v, chain, size);
    Piece(v, chain, k, k * ClusterSize(v), o, 1);
    var from, all := ClusterOffset(v, chain[k]) + o, Joined(v, chain);
    assert all[pos..pos + 1][0] == v.disk[from..from + 1][0];
  }

  lemma InDisk(v: Volume, chain: seq<nat>, size: nat)
    requires LongEnough(v, chain, size)
    ensures forall i :: 0 <= i < |chain| ==> OnDisk(v, chain[i])
  {
    hide Link, OnDisk;
  }

  /** What follows a piece that fills its cluster is the start of the next cluster. */
  lemma LocateNext(v: Volume, chain: seq<nat>, size: nat, pos: nat, k: nat, o: nat)
    requires LongEnough(v, chain, size) && At(v, chain, pos, k, o) && pos + ClusterSize(v) - o < size
    ensures At(v, chain, pos + ClusterSize(v) - o, k + 1, 0) && NextCluster(v, chain[k]) == chain[k + 1]
  {
    hide Chain, NextCluster;
    var cs := ClusterSize(v);
    assert (k + 1) * cs == k * cs + cs;
    if |chain| == k + 1 { assert false; }
    Follow(v, chain, k);
  }

  /** The next piece read extends what was read so far. */
  lemma Extend(v: Volume, chain: seq<nat>, size: nat, from: nat, pos: nat, k: nat, o: nat, count: nat)
    requires LongEnough(v, chain, size) && At(v, chain, pos, k, o) && OnDisk(v, chain[k])
    requires from <= pos && o + count <= ClusterSize(v) && pos + count <= size
    ensures var at := ClusterOffset(v, chain[k]) + o;
      && at + count <= |v.disk|
      && var c := FileContents(v, chain, size);
      c[from..pos] + v.disk[at..at + count] == c[from..pos + count]
  {
    var all, c := Joined(v, chain), FileContents(v, chain, size);
    FilePrefix(v, chain, size);
    hide ClusterOffset, ClusterSize, Joined, Link, FileContents;
    Piece(v, chain, k, k * ClusterSize(v), o, count);
    var at := ClusterOffset(v, chain[k]) + o;
    AppendPiece(all, c, from, pos, count, v.disk[at..at + count]);
  }

  lemma FilePrefix(v: Volume, chain: seq<nat>, size: nat)
    requires LongEnough(v, chain, size)
    ensures size <= |Joined(v, chain)| && FileContents(v, chain, size) == Joined(v, chain)[..size]
  {
    hide Flatten, Link, Cluster, OnDisk;
    JoinedLength(v, chain);
  }

  lemma JoinedLength(v: Volume, chain: seq<nat>)
    requires forall i :: 0 <= i < |chain| ==> OnDisk(v, chain[i])
    ensures |Joined(v, chain)| == |chain| * ClusterSize(v)
  {
    hide Flatten, ClusterOffset;
    FlatLength(Clusters(v, chain), ClusterSize(v));
  }

  lemma AppendPiece(all: seq<Byte>, c: seq<Byte>, from: nat, pos: nat, count: nat, piece: seq<Byte>)
    requires |c| <= |all| && c == all[..|c|] && from <= pos && pos + count <= |c| && piece == all[pos..pos + count]
    ensures c[from..pos] + piece == c[from..pos + count]
  {
    assert piece == c[pos..pos + count];
  }

  class File {
    const v: Volume
    const firstCluster: nat
    const size: nat
    ghost const chain: seq<nat>
    var offset: nat

    /** The chain starts at the first cluster and is long enough for the file; the offset is in the file. */
    ghost predicate Valid()
      reads this
    {
      && LongEnough(v, chain, size) && size < 0x1_0000_0000
      && (chain != [] ==> chain[0] == firstCluster)
      && offset <= size
    }

    ghost function Contents(): (r: seq<Byte>)
      reads this
      requires Valid()
      ensures |r| == size
    {
      FileContents(v, chain, size)
    }

    constructor (v: Volume, firstCluster: nat, size: nat, ghost chain: seq<nat>)
      requires LongEnough(v, chain, size) && size < 0x1_0000_0000 && (chain != [] ==> chain[0] == firstCluster)
      ensures Valid() && offset == 0 && this.v == v && this.size == size && this.chain == chain
    {
      this.v, this.firstCluster, this.size, this.chain, offset := v, firstCluster, size, chain, 0;
    }

    /** The walk along the chain to the cluster that holds the offset. */
    method Walk(steps: nat) returns (cluster: nat)
      requires Valid()
      ensures steps < |chain| ==> cluster == chain[steps]
    {
      hide NextCluster;
      cluster := firstCluster;
      for i := 0 to steps
        invariant i < |chain| ==> cluster == chain[i]
      {
        Follow(v, chain, i);
        cluster := NextCluster(v, cluster);
      }
    }

    /** One turn of the loop of fat32_read: a piece of one cluster, from byte `o` on. */
    method Piecewise(cluster: nat, o: nat, index: nat, readSize: nat, ghost k: nat)
      returns (piece: seq<Byte>, next: nat)
      requires Valid() && index < readSize && offset + readSize <= size
      requires At(v, chain, offset + index, k, o) && cluster == chain[k]
      ensures |piece| == if ClusterSize(v) - o > readSize - index then readSize - index else ClusterSize(v) - o
      ensures Contents()[offset..offset + index] + piece == Contents()[offset..offset + index + |piece|]
      ensures index + |piece| < readSize ==> At(v, chain, offset + index + |piece|, k + 1, 0) && next == chain[k + 1]
    {
      hide LongEnough, FileContents, NextCluster, ClusterOffset, FatLength, OnDisk;
      var cs := ClusterSize(v);
      var count := if cs - o > readSize - index then readSize - index else cs - o;
      InChain(v, chain, size, offset + index, k, o);
      Extend(v, chain, size, offset, offset + index, k, o, count);
      var at := ClusterOffset(v, cluster) + o;
      piece := v.disk[at..at + count];
      next := cluster;
      if index + count < readSize {
        LocateNext(v, chain, size, offset + index, k, o);
        next := NextCluster(v, cluster);
      }
    }

    /** The whole loop: the first piece may start in the middle of a cluster. */
    method Gather(readSize: nat) returns (data: seq<Byte>)
      requires Valid() && offset + readSize <= size
      ensures data == Contents()[offset..offset + readSize]
    {
      var cs := ClusterSize(v);
      ghost var k: nat := Quot(offset, cs);
      var cluster := Walk(Quot(offset, cs));
      hide Quot, Rest, LongEnough, FileContents;
      if offset < size {
        Locate(v, chain, size, offset);
      }
      RestZero(cs);
      var saved: nat := offset;
      var index: nat := 0;
      data := [];
      while index < readSize
        invariant index <= readSize
        invariant data == Contents()[offset..offset + index]
        invariant index < readSize ==> At(v, chain, offset + index, k, Rest(saved, cs)) && cluster == chain[k]
      {
        hide At, ClusterSize;
        var piece;
        piece, cluster := Piecewise(cluster, Rest(saved, cs), index, readSize, k);
        data := data + piece;
        saved := 0;
        index := index + |piece|;
        k := k + 1;
      }
    }

    /** fat32_read */
    method Read(n: nat) returns (data: seq<Byte>)
      requires Valid() && offset + n < TWO64
      modifies this`offset
      ensures Valid() && offset == old(offset) + Clip(size, old(offset), n)
      ensures data == Contents()[old(offset)..offset] && |data| <= n && (|data| < n ==> offset == size)
      ensures forall k: nat, o: nat, pos: nat :: At(v, chain, pos, k, o) && old(offset) <= pos < offset ==>
                DeviceByte(v, chain, k, o, data[pos - old(offset)])
    {
      ReadSizeRightIff(size, offset, n);
      hide LongEnough, FileContents, ReadSize;
      var readSize := ReadSize(size, offset, n);
      data := Gather(readSize);
      forall k: nat, o: nat, pos: nat | At(v, chain, pos, k, o) && offset <= pos < offset + readSize
        ensures DeviceByte(v, chain, k, o, data[pos - offset])
      {
        FileByte(v, chain, size, pos, k, o);
      }
      offset := offset + readSize;
    }
  }

  /** Two calls of fat32_read give what one call for the sum gives, and leave the same offset. */
  method ReadInTwo(f: File, g: File, a: nat, b: nat) returns (x: seq<Byte>, y: seq<Byte>, z: seq<Byte>)
    requires f.Valid() && g.Valid() && f != g && f.offset + a + b < TWO64
    requires f.v == g.v && f.chain == g.chain && f.size == g.size && f.offset == g.offset
    modifies f`offset, g`offset
    ensures f.Valid() && g.Valid() && x + y == z && f.offset == g.offset
  {
    ghost var c, at := FileContents(f.v, f.chain, f.size), f.offset;
    hide FileContents, LongEnough, Clip;
    x := f.Read(a);
    assert x == c[at..f.offset];
    ghost var mid := f.offset;
    y := f.Read(b);
    assert y == c[mid..f.offset];
    z := g.Read(a + b);
    assert z == c[at..g.offset];
    ReadTwice(c, at, a, b);
  }

  lemma RestZero(cs: nat)
    requires cs > 0
    ensures Rest(0, cs) == 0
  {
  }

  lemma InChain(v: Volume, chain: seq<nat>, size: nat, pos: nat, k: nat, o: nat)
    requires LongEnough(v, chain, size) && At(v, chain, pos, k, o)
    ensures k < |chain| && OnDisk(v, chain[k]) && chain[k] >= 2 && GoodVolume(v)
  {
    hide Link, ClusterOffset;
  }

  lemma Follow(v: Volume, chain: seq<nat>, k: nat)
    requires GoodVolume(v) && Chain(v, chain)
    ensures k + 1 < |chain| ==> NextCluster(v, chain[k]) == chain[k + 1]
  {
    hide FatEntry, OnDisk;
    if k + 1 < |chain| {
      assert Link(v, chain[k + 1 - 1], chain[k + 1]);
    }
  }
}
