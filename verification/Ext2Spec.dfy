/**
  File contents and block ownership in src/kernel/fs/filesystem.c on values: 1024-byte
  blocks, the twelve direct pointers of each inode, and the block bitmap of group 0.
*/
module Ext2Spec {
  import opened Common
  import opened Bits
  import opened Bio

  const DIRECT_BLOCKS: nat := 12
  const CAPACITY: nat := 12288  // DIRECT_BLOCKS * BLOCK_SIZE

  /** inode_t: the size and the block pointers, zero meaning not allocated yet. */
  datatype Inode = Inode(size: nat, blocks: seq<nat>)

  /**
    What the superblock and the descriptor of group 0 say.  `limit` is the smaller of
    blocks_pg and total_blocks, `first` is first_data_block (bit k of the bitmap stands for
    block first + k), and `reserved` are the blocks in use by anything but the inodes of the
    model: superblock, descriptors, bitmaps, inode table.
  */
  datatype Geometry = Geometry(device: nat, bitmap: nat, limit: nat, first: nat, reserved: set<nat>)

  /** The device's block `b` as the cache delivers it. */
  function BlockOf(disk: Disk, g: Geometry, b: nat): Block {
    Content(disk, PlaceOf(g.device, b))
  }

  function WithBlock(disk: Disk, g: Geometry, b: nat, data: Block): Disk {
    disk[PlaceOf(g.device, b) := data]
  }

  /** The byte at offset `o` of a file; a hole reads as zero. */
  function ByteAt(disk: Disk, g: Geometry, f: Inode, o: nat): Byte
    requires |f.blocks| >= DIRECT_BLOCKS && o < CAPACITY
  {
    var b := f.blocks[o / BLOCK_SIZE];
    if b == 0 then 0 else BlockOf(disk, g, b)[o % BLOCK_SIZE]
  }

  /** All bytes the direct blocks can hold, whatever the file's size. */
  function Raw(disk: Disk, g: Geometry, f: Inode): (r: seq<Byte>)
    requires |f.blocks| >= DIRECT_BLOCKS
    ensures |r| == CAPACITY
  {
    seq(CAPACITY, o requires 0 <= o < CAPACITY => ByteAt(disk, g, f, o))
  }

  /** The file's contents. */
  function Bytes(disk: Disk, g: Geometry, f: Inode): (r: seq<Byte>)
    requires |f.blocks| >= DIRECT_BLOCKS && f.size <= CAPACITY
    ensures |r| == f.size
  {
    Raw(disk, g, f)[..f.size]
  }

  // ---------- Ownership ----------

  ghost predicate Shaped(f: Inode) {
    |f.blocks| >= DIRECT_BLOCKS && f.size <= CAPACITY
  }

  /** first_data_block is 1 for 1024-byte blocks and 0 for larger ones. */
  ghost predicate GeometryOk(g: Geometry) {
    && g.device < 256 && g.first <= 1 && 0 < g.bitmap < g.limit <= 8 * BLOCK_SIZE
    && g.first in g.reserved && g.bitmap in g.reserved
  }

  /** Inode `n` has a block at direct index `i`. */
  ghost predicate Owns(fs: map<nat, Inode>, n: nat, i: int) {
    n in fs && 0 <= i < DIRECT_BLOCKS && |fs[n].blocks| >= DIRECT_BLOCKS && fs[n].blocks[i] != 0
  }

  /** A block that an inode may own. */
  ghost predicate Usable(g: Geometry, b: nat) {
    g.first <= b < g.limit && b !in g.reserved
  }

  ghost predicate Owned(g: Geometry, fs: map<nat, Inode>) {
    forall n, i :: Owns(fs, n, i) ==> Usable(g, fs[n].blocks[i])
  }

  /** No hole below offset `end`. */
  ghost predicate Backed(f: Inode, end: nat) {
    |f.blocks| >= DIRECT_BLOCKS && forall i :: 0 <= i < DIRECT_BLOCKS && i * BLOCK_SIZE < end ==> f.blocks[i] != 0
  }

  /** Blocks can be allocated soundly, or none has to be for offsets below `end`. */
  ghost predicate Ready(g: Geometry, f: Inode, end: nat) {
    g.first == 0 || Backed(f, end)
  }

  lemma ReadyAt(g: Geometry, fs: map<nat, Inode>, n: nat, end: nat, at: nat)
    requires n in fs && Shaped(fs[n]) && Ready(g, fs[n], end) && at < end <= CAPACITY
    ensures at / BLOCK_SIZE < DIRECT_BLOCKS && (g.first == 0 || Owns(fs, n, at / BLOCK_SIZE))
  {
    assert at / BLOCK_SIZE * BLOCK_SIZE <= at;
  }

  /** Where blocks cannot be allocated soundly, none was, and no file grew beyond its blocks. */
  ghost predicate Kept(g: Geometry, fs: map<nat, Inode>, fs': map<nat, Inode>) {
    && fs'.Keys == fs.Keys
    && (g.first != 0 ==>
          forall m :: m in fs ==>
            && fs'[m].blocks == fs[m].blocks
            && (Backed(fs[m], fs[m].size) ==> Backed(fs'[m], fs'[m].size)))
  }

  /** No block belongs to two places. */
  ghost predicate Exclusive(fs: map<nat, Inode>) {
    forall n, i, m, j :: Owns(fs, n, i) && Owns(fs, m, j) && fs[n].blocks[i] == fs[m].blocks[j] ==> n == m && i == j
  }

  ghost predicate InUse(g: Geometry, fs: map<nat, Inode>, b: nat) {
    b in g.reserved || exists n, i :: Owns(fs, n, i) && fs[n].blocks[i] == b
  }

  /** The bitmap marks exactly the blocks in use. */
  ghost predicate Exact(bm: Block, g: Geometry, fs: map<nat, Inode>) {
    g.limit <= 8 * BLOCK_SIZE && forall b :: g.first <= b < g.limit ==> (Marked(bm, b - g.first) <==> InUse(g, fs, b))
  }

  ghost predicate Inv(disk: Disk, g: Geometry, fs: map<nat, Inode>) {
    && GeometryOk(g)
    && (forall n :: n in fs ==> Shaped(fs[n]))
    && Owned(g, fs)
    && Exclusive(fs)
    && Exact(BlockOf(disk, g, g.bitmap), g, fs)
  }

  /** The abstract file system: one byte sequence per inode. */
  ghost function Files(disk: Disk, g: Geometry, fs: map<nat, Inode>): map<nat, seq<Byte>> {
    map n: nat | n in fs && Shaped(fs[n]) :: Bytes(disk, g, fs[n])
  }

  /** The contents of one file of the abstract file system. */
  ghost function FileOf(files: map<nat, seq<Byte>>, n: nat): seq<Byte> {
    if n in files then files[n] else []
  }

  // ---------- Allocation ----------

  /** Every bit below the limit is set. */
  ghost predicate NoneClear(bm: Block, limit: nat) {
    limit <= 8 * BLOCK_SIZE && forall i :: 0 <= i < limit ==> Marked(bm, i)
  }

  /** The bit that ext2_alloc finds. */
  ghost predicate FirstClearBit(bm: Block, limit: nat, j: nat) {
    j < limit <= 8 * BLOCK_SIZE && NoneClear(bm, j) && !Marked(bm, j)
  }

  /** The disk after ext2_alloc took bit `j`: the bit is set, and the block of that number cleared. */
  function Allocated(disk: Disk, g: Geometry, j: nat): Disk
    requires j < 8 * BLOCK_SIZE
  {
    WithBlock(WithBlock(disk, g, g.bitmap, Mark(BlockOf(disk, g, g.bitmap), j)), g, j, ZeroBlock())
  }

  lemma AllocatedBlocks(disk: Disk, g: Geometry, j: nat, c: nat)
    requires j < 8 * BLOCK_SIZE && j != g.bitmap && GeometryOk(g) && InRange(g.device, c)
    ensures BlockOf(Allocated(disk, g, j), g, c) ==
            if c == j then ZeroBlock()
            else if c == g.bitmap then Mark(BlockOf(disk, g, g.bitmap), j)
            else BlockOf(disk, g, c)
  {
  }

  /** `f` with the hole at `idx` filled by block `b`. */
  function Placed(f: Inode, idx: nat, b: nat): Inode
    requires idx < |f.blocks|
  {
    f.(blocks := f.blocks[idx := b])
  }

  /** There is a hole at index `idx` of inode `n`. */
  ghost predicate Hole(fs: map<nat, Inode>, n: nat, idx: nat) {
    n in fs && idx < DIRECT_BLOCKS <= |fs[n].blocks| && fs[n].blocks[idx] == 0
  }

  /** With first_data_block 0 the bit found is that of a block nobody uses. */
  lemma ClearMeansUnused(disk: Disk, g: Geometry, fs: map<nat, Inode>, j: nat)
    requires Inv(disk, g, fs) && g.first == 0 && FirstClearBit(BlockOf(disk, g, g.bitmap), g.limit, j)
    ensures !InUse(g, fs, j) && j != 0 && j != g.bitmap
  {
    assert Marked(BlockOf(disk, g, g.bitmap), j - g.first) <==> InUse(g, fs, j);
  }

  /** With first_data_block 1 the block of that number is the one before, which is in use. */
  lemma ClearMeansUsed(disk: Disk, g: Geometry, fs: map<nat, Inode>, j: nat)
    requires Inv(disk, g, fs) && g.first == 1 && FirstClearBit(BlockOf(disk, g, g.bitmap), g.limit, j)
    ensures InUse(g, fs, j)
  {
    assert Marked(BlockOf(disk, g, g.bitmap), g.first - g.first) <==> InUse(g, fs, g.first);
    assert Marked(BlockOf(disk, g, g.bitmap), j - g.first) <==> InUse(g, fs, j);
  }

  /** The block that ext2_alloc hands out is unused if and only if first_data_block is 0. */
  lemma AllocIsUnusedIff(disk: Disk, g: Geometry, fs: map<nat, Inode>, j: nat)
    requires Inv(disk, g, fs) && FirstClearBit(BlockOf(disk, g, g.bitmap), g.limit, j)
    ensures !InUse(g, fs, j) <==> g.first == 0
  {
    if g.first == 0 {
      ClearMeansUnused(disk, g, fs, j);
    } else {
      ClearMeansUsed(disk, g, fs, j);
    }
  }

  lemma PlacedInUse(g: Geometry, fs: map<nat, Inode>, n: nat, idx: nat, j: nat, b: nat)
    requires Hole(fs, n, idx) && j != 0
    ensures InUse(g, fs[n := Placed(fs[n], idx, j)], b) <==> b == j || InUse(g, fs, b)
  {
    var fs' := fs[n := Placed(fs[n], idx, j)];
    assert Owns(fs', n, idx) && fs'[n].blocks[idx] == j;
    assert forall m, i :: Owns(fs, m, i) ==> Owns(fs', m, i) && fs'[m].blocks[i] == fs[m].blocks[i];
    assert forall m, i :: Owns(fs', m, i) && !(m == n && i == idx) ==> Owns(fs, m, i);
  }

  lemma AllocKeepsExact(disk: Disk, g: Geometry, fs: map<nat, Inode>, n: nat, idx: nat, j: nat)
    requires Inv(disk, g, fs) && Hole(fs, n, idx) && g.first == 0
    requires FirstClearBit(BlockOf(disk, g, g.bitmap), g.limit, j)
    ensures Exact(BlockOf(Allocated(disk, g, j), g, g.bitmap), g, fs[n := Placed(fs[n], idx, j)])
  {
    var bm := BlockOf(disk, g, g.bitmap);
    var fs' := fs[n := Placed(fs[n], idx, j)];
    ClearMeansUnused(disk, g, fs, j);
    AllocatedBlocks(disk, g, j, g.bitmap);
    forall b | g.first <= b < g.limit
      ensures InUse(g, fs', b) <==> Marked(Mark(bm, j), b - g.first)
    {
      MarkOne(bm, j, b);
      PlacedInUse(g, fs, n, idx, j, b);
      assert Marked(bm, b - g.first) <==> InUse(g, fs, b);
    }
  }

  /** An unused block placed in a hole keeps ownership exclusive and the bitmap exact. */
  lemma AllocKeepsInv(disk: Disk, g: Geometry, fs: map<nat, Inode>, n: nat, idx: nat, j: nat)
    requires Inv(disk, g, fs) && Hole(fs, n, idx) && g.first == 0
    requires FirstClearBit(BlockOf(disk, g, g.bitmap), g.limit, j)
    ensures Inv(Allocated(disk, g, j), g, fs[n := Placed(fs[n], idx, j)])
  {
    var fs' := fs[n := Placed(fs[n], idx, j)];
    ClearMeansUnused(disk, g, fs, j);
    AllocKeepsExact(disk, g, fs, n, idx, j);
    forall m, i | Owns(fs', m, i)
      ensures (m == n && i == idx) || (Owns(fs, m, i) && fs'[m].blocks[i] == fs[m].blocks[i] != j)
    {
      if m != n || i != idx {
        assert Owns(fs, m, i);
      }
    }
  }

  /**
    Filling a hole keeps the file system consistent if and only if first_data_block is 0.  An
    image with 1024-byte blocks has 1 there: the block given to the inode, and cleared, is one
    that something else uses.
  */
  lemma AllocKeepsInvIff(disk: Disk, g: Geometry, fs: map<nat, Inode>, n: nat, idx: nat, j: nat)
    requires Inv(disk, g, fs) && Hole(fs, n, idx) && FirstClearBit(BlockOf(disk, g, g.bitmap), g.limit, j)
    ensures Inv(Allocated(disk, g, j), g, fs[n := Placed(fs[n], idx, j)]) <==> g.first == 0
  {
    if g.first == 0 {
      AllocKeepsInv(disk, g, fs, n, idx, j);
    } else {
      var fs' := fs[n := Placed(fs[n], idx, j)];
      ClearMeansUsed(disk, g, fs, j);
      NotBitZero(disk, g, fs, j);
      assert Owns(fs', n, idx) && fs'[n].blocks[idx] == j;
      if j !in g.reserved {
        var m, i :| Owns(fs, m, i) && fs[m].blocks[i] == j;
        assert Owns(fs', m, i) && fs'[m].blocks[i] == j;
      }
    }
  }

  const EMPTY_INODE := Inode(0, [0, 0, 0, 0, 0, 0, 0, 0, 0, 0, 0, 0])

  /** The beginning of an ordinary image: blocks 1 to 5 reserved, block 6 the only one of file 2. */
  const IMAGE := Geometry(0, 3, 8, 1, {1, 2, 3, 4, 5})
  const IMAGE_FILES := map[2 := Inode(1024, [6, 0, 0, 0, 0, 0, 0, 0, 0, 0, 0, 0]), 7 := EMPTY_INODE]

  /** Six bits set: those of blocks 1 to 6. */
  function ImageBitmap(): Block {
    [0x3F] + seq(BLOCK_SIZE - 1, _ => 0)
  }

  function ImageDisk(): Disk {
    map[PlaceOf(0, 3) := ImageBitmap(), PlaceOf(0, 6) := seq(BLOCK_SIZE, _ => 1)]
  }

  lemma ImageBits(i: nat)
    requires i < 8
    ensures Marked(ImageBitmap(), i) <==> i < 6
  {
  }

  lemma ImageInv()
    ensures Inv(ImageDisk(), IMAGE, IMAGE_FILES) && FirstClearBit(ImageBitmap(), IMAGE.limit, 6)
    ensures BlockOf(ImageDisk(), IMAGE, IMAGE.bitmap) == ImageBitmap()
  {
    forall i: nat | i < 8
      ensures Marked(ImageBitmap(), i) <==> i < 6
    {
      ImageBits(i);
    }
    assert Owns(IMAGE_FILES, 2, 0) && IMAGE_FILES[2].blocks[0] == 6;
    assert forall n, i :: Owns(IMAGE_FILES, n, i) ==> n == 2 && i == 0;
    assert forall b :: 1 <= b < 8 ==> (InUse(IMAGE, IMAGE_FILES, b) <==> b <= 6);
  }

  /** On it, the first block given to file 7 is block 6, and file 2 is wiped. */
  lemma OrdinaryImageLosesFile()
    ensures Inv(ImageDisk(), IMAGE, IMAGE_FILES) && Hole(IMAGE_FILES, 7, 0)
    ensures FirstClearBit(BlockOf(ImageDisk(), IMAGE, IMAGE.bitmap), IMAGE.limit, 6)
    ensures ByteAt(ImageDisk(), IMAGE, IMAGE_FILES[2], 0) == 1
    ensures ByteAt(Allocated(ImageDisk(), IMAGE, 6), IMAGE, IMAGE_FILES[2], 0) == 0
  {
    ImageInv();
    AllocatedBlocks(ImageDisk(), IMAGE, 6, 6);
  }

  /** The bit of the first block is set, so the bit found is never bit 0. */
  lemma NotBitZero(disk: Disk, g: Geometry, fs: map<nat, Inode>, j: nat)
    requires Inv(disk, g, fs) && FirstClearBit(BlockOf(disk, g, g.bitmap), g.limit, j)
    ensures j != 0
  {
    assert Marked(BlockOf(disk, g, g.bitmap), g.first - g.first) <==> InUse(g, fs, g.first);
  }

  /** Filling a hole changes no byte of any file. */
  lemma AllocKeepsBytes(disk: Disk, g: Geometry, fs: map<nat, Inode>, n: nat, idx: nat, j: nat, m: nat)
    requires Inv(disk, g, fs) && Hole(fs, n, idx) && g.first == 0 && m in fs
    requires FirstClearBit(BlockOf(disk, g, g.bitmap), g.limit, j)
    ensures Raw(Allocated(disk, g, j), g, fs[n := Placed(fs[n], idx, j)][m]) == Raw(disk, g, fs[m])
  {
    var f' := fs[n := Placed(fs[n], idx, j)][m];
    ClearMeansUnused(disk, g, fs, j);
    forall o | 0 <= o < CAPACITY
      ensures ByteAt(Allocated(disk, g, j), g, f', o) == ByteAt(disk, g, fs[m], o)
    {
      var i := o / BLOCK_SIZE;
      AllocatedBlocks(disk, g, j, f'.blocks[i]);
      assert Owns(fs, m, i) ==> Usable(g, fs[m].blocks[i]) && fs[m].blocks[i] != j;
    }
  }

  // ---------- Writing and reading part of a block ----------

  /** `data` laid over `base` from offset `off` on, extending it if need be. */
  function Splice(base: seq<Byte>, off: nat, data: seq<Byte>): (r: seq<Byte>)
    requires off <= |base|
    ensures |r| == if off + |data| > |base| then off + |data| else |base|
  {
    base[..off] + data + (if off + |data| < |base| then base[off + |data|..] else [])
  }

  lemma SpliceAt(base: seq<Byte>, off: nat, data: seq<Byte>, k: nat)
    requires off <= |base| && k < |Splice(base, off, data)|
    ensures Splice(base, off, data)[k] == if off <= k < off + |data| then data[k - off]
            else if k < |base| then base[k] else 0
  {
  }

  /** The disk after `data` was copied into block `b` at `off`. */
  function Patched(disk: Disk, g: Geometry, b: nat, off: nat, data: seq<Byte>): Disk
    requires off + |data| <= BLOCK_SIZE
  {
    WithBlock(disk, g, b, Splice(BlockOf(disk, g, b), off, data))
  }

  /** Writing inside a block that an inode owns leaves the bookkeeping alone. */
  lemma PatchKeepsInv(disk: Disk, g: Geometry, fs: map<nat, Inode>, n: nat, idx: nat, off: nat, data: seq<Byte>)
    requires Inv(disk, g, fs) && Owns(fs, n, idx) && off + |data| <= BLOCK_SIZE
    ensures Inv(Patched(disk, g, fs[n].blocks[idx], off, data), g, fs)
  {
  }

  lemma PatchBytes(disk: Disk, g: Geometry, fs: map<nat, Inode>, n: nat, idx: nat, off: nat, data: seq<Byte>,
                   m: nat, o: nat)
    requires Inv(disk, g, fs) && Owns(fs, n, idx) && off + |data| <= BLOCK_SIZE && m in fs && o < CAPACITY
    ensures var at := idx * BLOCK_SIZE + off;
            ByteAt(Patched(disk, g, fs[n].blocks[idx], off, data), g, fs[m], o) ==
            if m == n && at <= o < at + |data| then data[o - at] else ByteAt(disk, g, fs[m], o)
  {
  }

  /** Copying a chunk into block `idx` of inode `n` splices it into that file's bytes ... */
  lemma PatchSplices(disk: Disk, g: Geometry, fs: map<nat, Inode>, n: nat, idx: nat, off: nat, data: seq<Byte>)
    requires Inv(disk, g, fs) && Owns(fs, n, idx) && off + |data| <= BLOCK_SIZE
    ensures Raw(Patched(disk, g, fs[n].blocks[idx], off, data), g, fs[n]) ==
            Splice(Raw(disk, g, fs[n]), idx * BLOCK_SIZE + off, data)
  {
    var before := Raw(disk, g, fs[n]);
    var after := Raw(Patched(disk, g, fs[n].blocks[idx], off, data), g, fs[n]);
    var at := idx * BLOCK_SIZE + off;
    forall o | 0 <= o < CAPACITY
      ensures after[o] == Splice(before, at, data)[o]
    {
      PatchBytes(disk, g, fs, n, idx, off, data, n, o);
      SpliceAt(before, at, data, o);
    }
  }

  /** ... and changes no byte of any other file. */
  lemma PatchSparesOthers(disk: Disk, g: Geometry, fs: map<nat, Inode>, n: nat, idx: nat, off: nat, data: seq<Byte>,
                          m: nat)
    requires Inv(disk, g, fs) && Owns(fs, n, idx) && off + |data| <= BLOCK_SIZE && m in fs && m != n
    ensures Raw(Patched(disk, g, fs[n].blocks[idx], off, data), g, fs[m]) == Raw(disk, g, fs[m])
  {
    forall o | 0 <= o < CAPACITY
      ensures ByteAt(Patched(disk, g, fs[n].blocks[idx], off, data), g, fs[m], o) == ByteAt(disk, g, fs[m], o)
    {
      PatchBytes(disk, g, fs, n, idx, off, data, m, o);
    }
  }

  /** Two adjacent chunks are one. */
  lemma SpliceTwice(base: seq<Byte>, off: nat, a: seq<Byte>, b: seq<Byte>)
    requires off + |a| + |b| <= |base|
    ensures Splice(Splice(base, off, a), off + |a|, b) == Splice(base, off, a + b)
  {
  }

  /** Cutting the raw bytes at the new size turns a raw splice into a file splice. */
  lemma SpliceOfPrefix(raw: seq<Byte>, size: nat, off: nat, data: seq<Byte>)
    requires off <= size <= |raw| && off + |data| <= |raw|
    ensures var size' := if off + |data| > size then off + |data| else size;
            Splice(raw, off, data)[..size'] == Splice(raw[..size], off, data)
  {
  }

  /** The bytes of a chunk that lies in one block are a slice of the file. */
  lemma ChunkIsSlice(disk: Disk, g: Geometry, f: Inode, idx: nat, off: nat, len: nat)
    requires |f.blocks| >= DIRECT_BLOCKS && idx < DIRECT_BLOCKS && f.blocks[idx] != 0 && off + len <= BLOCK_SIZE
    ensures var at := idx * BLOCK_SIZE + off;
            BlockOf(disk, g, f.blocks[idx])[off..off + len] == Raw(disk, g, f)[at..at + len]
  {
    var at := idx * BLOCK_SIZE + off;
    var chunk := BlockOf(disk, g, f.blocks[idx])[off..off + len];
    var slice := Raw(disk, g, f)[at..at + len];
    forall k | 0 <= k < len
      ensures chunk[k] == slice[k]
    {
      assert (at + k) / BLOCK_SIZE == idx && (at + k) % BLOCK_SIZE == off + k;
    }
  }

  // ---------- Holes ----------

  /** Bytes from `lo` up to `hi` lie, among others, in block `i`. */
  predicate Touched(lo: nat, hi: nat, i: nat) {
    lo < hi && lo / BLOCK_SIZE <= i <= (hi - 1) / BLOCK_SIZE
  }

  ghost predicate MeetsHole(f: Inode, lo: nat, hi: nat) {
    exists i :: 0 <= i < |f.blocks| && Touched(lo, hi, i) && f.blocks[i] == 0
  }

  /** `f'` is `f` with exactly the holes between `lo` and `hi` filled. */
  ghost predicate Filled(f: Inode, f': Inode, lo: nat, hi: nat) {
    && f'.size == f.size && |f'.blocks| == |f.blocks|
    && forall i :: 0 <= i < |f.blocks| ==>
         if f.blocks[i] == 0 && Touched(lo, hi, i) then f'.blocks[i] != 0 else f'.blocks[i] == f.blocks[i]
  }

  lemma FilledNothing(f: Inode, at: nat)
    ensures Filled(f, f, at, at)
  {
  }

  lemma TouchedSplit(lo: nat, mid: nat, hi: nat, i: nat)
    requires lo <= mid < hi
    ensures Touched(lo, hi, i) <==> Touched(lo, mid, i) || Touched(mid, hi, i)
  {
    assert mid > 0 ==> mid / BLOCK_SIZE <= (mid - 1) / BLOCK_SIZE + 1;
  }

  lemma FilledThen(f: Inode, f1: Inode, f2: Inode, lo: nat, mid: nat, hi: nat)
    requires lo <= mid < hi && Filled(f, f1, lo, mid) && Filled(f1, f2, mid, hi)
    ensures Filled(f, f2, lo, hi)
  {
    forall i | 0 <= i < |f.blocks|
      ensures if f.blocks[i] == 0 && Touched(lo, hi, i) then f2.blocks[i] != 0 else f2.blocks[i] == f.blocks[i]
    {
      TouchedSplit(lo, mid, hi, i);
    }
  }

  /** One chunk lies in one block. */
  lemma FilledOne(f: Inode, idx: nat, b: nat, at: nat, len: nat)
    requires idx < |f.blocks| && at / BLOCK_SIZE == idx && 0 < len && at % BLOCK_SIZE + len <= BLOCK_SIZE
    requires b != 0 && (f.blocks[idx] != 0 ==> b == f.blocks[idx])
    ensures Filled(f, Placed(f, idx, b), at, at + len)
  {
    assert (at + len - 1) / BLOCK_SIZE == idx;
  }

  /** The inode is as it was if and only if there was no hole. */
  lemma FilledIff(f: Inode, f': Inode, lo: nat, hi: nat)
    requires Filled(f, f', lo, hi)
    ensures f' == f <==> !MeetsHole(f, lo, hi)
  {
    if !MeetsHole(f, lo, hi) {
      assert f'.blocks == f.blocks;
    }
  }

  // ---------- What a step does to all files ----------

  /** File `n` became `raw`, at the same size; every other inode and file is as it was. */
  ghost predicate Only(disk: Disk, g: Geometry, fs: map<nat, Inode>, disk': Disk, fs': map<nat, Inode>, n: nat,
                       raw: seq<Byte>) {
    && fs'.Keys == fs.Keys && n in fs
    && (forall m :: m in fs ==> |fs[m].blocks| >= DIRECT_BLOCKS && |fs'[m].blocks| >= DIRECT_BLOCKS)
    && fs'[n].size == fs[n].size && (forall m :: m in fs && m != n ==> fs'[m] == fs[m])
    && (forall m :: m in fs && m != n ==> Raw(disk', g, fs'[m]) == Raw(disk, g, fs[m]))
    && Raw(disk', g, fs'[n]) == raw
  }

  lemma AllocOnly(disk: Disk, g: Geometry, fs: map<nat, Inode>, n: nat, idx: nat, j: nat)
    requires Inv(disk, g, fs) && Hole(fs, n, idx) && g.first == 0
    requires FirstClearBit(BlockOf(disk, g, g.bitmap), g.limit, j)
    ensures Only(disk, g, fs, Allocated(disk, g, j), fs[n := Placed(fs[n], idx, j)], n, Raw(disk, g, fs[n]))
    ensures j != 0
  {
    NotBitZero(disk, g, fs, j);
    forall m | m in fs
      ensures Raw(Allocated(disk, g, j), g, fs[n := Placed(fs[n], idx, j)][m]) == Raw(disk, g, fs[m])
    {
      assert Shaped(fs[m]);
      AllocKeepsBytes(disk, g, fs, n, idx, j, m);
    }
  }

  lemma PatchOnly(disk: Disk, g: Geometry, fs: map<nat, Inode>, n: nat, idx: nat, off: nat, data: seq<Byte>)
    requires Inv(disk, g, fs) && Owns(fs, n, idx) && off + |data| <= BLOCK_SIZE
    ensures Only(disk, g, fs, Patched(disk, g, fs[n].blocks[idx], off, data), fs, n,
                 Splice(Raw(disk, g, fs[n]), idx * BLOCK_SIZE + off, data))
  {
    PatchSplices(disk, g, fs, n, idx, off, data);
    forall m | m in fs && m != n
      ensures Raw(Patched(disk, g, fs[n].blocks[idx], off, data), g, fs[m]) == Raw(disk, g, fs[m])
    {
      PatchSparesOthers(disk, g, fs, n, idx, off, data, m);
    }
    assert forall m :: m in fs ==> Shaped(fs[m]);
  }

  lemma OnlyThen(disk: Disk, g: Geometry, fs: map<nat, Inode>, d1: Disk, f1: map<nat, Inode>,
                 d2: Disk, f2: map<nat, Inode>, n: nat, r1: seq<Byte>, r2: seq<Byte>)
    requires Only(disk, g, fs, d1, f1, n, r1) && Only(d1, g, f1, d2, f2, n, r2)
    ensures Only(disk, g, fs, d2, f2, n, r2)
  {
  }

  lemma OnlyRaw(disk: Disk, g: Geometry, fs: map<nat, Inode>, disk': Disk, fs': map<nat, Inode>, n: nat, raw: seq<Byte>)
    requires Only(disk, g, fs, disk', fs', n, raw)
    ensures n in fs' && |fs'[n].blocks| >= DIRECT_BLOCKS && Raw(disk', g, fs'[n]) == raw
  {
  }

  lemma ZeroesAll(b: Block)
    ensures Splice(b, 0, ZeroBlock()) == ZeroBlock()
  {
  }

  /** A read-only step leaves the abstract files alone. */
  lemma OnlySame(disk: Disk, g: Geometry, fs: map<nat, Inode>, disk': Disk, fs': map<nat, Inode>, n: nat)
    requires Inv(disk, g, fs) && n in fs && Shaped(fs[n]) && Only(disk, g, fs, disk', fs', n, Raw(disk, g, fs[n]))
    ensures Files(disk', g, fs') == Files(disk, g, fs) && fs'.Keys == fs.Keys
  {
  }

  /** File `m` after file `n` became `raw` and got a new size. */
  lemma OnlyResizedAt(disk: Disk, g: Geometry, fs: map<nat, Inode>, disk': Disk, fs': map<nat, Inode>,
                      n: nat, raw: seq<Byte>, size: nat, m: nat)
    requires m in fs && Shaped(fs[m]) && size <= CAPACITY == |raw| && Only(disk, g, fs, disk', fs', n, raw)
    ensures var f := if m == n then fs'[n].(size := size) else fs'[m];
            Shaped(f) && Bytes(disk', g, f) == if m == n then raw[..size] else Bytes(disk, g, fs[m])
  {
    assert Raw(disk', g, fs'[n].(size := size)) == Raw(disk', g, fs'[n]);
    hide Raw;
  }

  /** What the file system looks like after file `n` became `raw` and got a new size. */
  lemma OnlyResized(disk: Disk, g: Geometry, fs: map<nat, Inode>, disk': Disk, fs': map<nat, Inode>,
                    n: nat, raw: seq<Byte>, size: nat)
    requires (forall m :: m in fs ==> Shaped(fs[m])) && size <= CAPACITY == |raw|
    requires Only(disk, g, fs, disk', fs', n, raw)
    ensures Files(disk', g, fs'[n := fs'[n].(size := size)]) == Files(disk, g, fs)[n := raw[..size]]
  {
    var fs2 := fs'[n := fs'[n].(size := size)];
    var a, b := Files(disk', g, fs2), Files(disk, g, fs)[n := raw[..size]];
    forall m | m in fs
      ensures m in a && m in b && a[m] == b[m]
    {
      OnlyResizedAt(disk, g, fs, disk', fs', n, raw, size, m);
      hide Bytes, Raw, Shaped;
    }
    assert a.Keys == b.Keys;
  }

  /** A spliced raw file, cut at its new size, is the spliced file; the rest is unchanged. */
  lemma OnlySpliced(disk: Disk, g: Geometry, fs: map<nat, Inode>, disk': Disk, fs': map<nat, Inode>,
                    n: nat, off: nat, src: seq<Byte>)
    requires Inv(disk, g, fs) && n in fs && Shaped(fs[n]) && off <= fs[n].size && off + |src| <= CAPACITY
    requires Only(disk, g, fs, disk', fs', n, Splice(Raw(disk, g, fs[n]), off, src))
    ensures fs'.Keys == fs.Keys && fs'[n].size == fs[n].size
    ensures var size := if off + |src| > fs[n].size then off + |src| else fs[n].size;
            Files(disk', g, fs'[n := fs'[n].(size := size)]) ==
            Files(disk, g, fs)[n := Splice(Bytes(disk, g, fs[n]), off, src)]
  {
    var size := if off + |src| > fs[n].size then off + |src| else fs[n].size;
    SpliceOfPrefix(Raw(disk, g, fs[n]), fs[n].size, off, src);
    OnlyResized(disk, g, fs, disk', fs', n, Splice(Raw(disk, g, fs[n]), off, src), size);
  }

  lemma FileIsBytes(disk: Disk, g: Geometry, fs: map<nat, Inode>, n: nat)
    requires Inv(disk, g, fs) && n in fs
    ensures Shaped(fs[n]) && FileOf(Files(disk, g, fs), n) == Bytes(disk, g, fs[n])
  {
  }

  /** One turn of the write loop on top of what the earlier turns wrote. */
  lemma WriteTurn(d0: Disk, g: Geometry, f0: map<nat, Inode>, d1: Disk, f1: map<nat, Inode>,
                  d2: Disk, f2: map<nat, Inode>, n: nat, off: nat, src: seq<Byte>, i: nat, len: nat)
    requires i + len <= |src| && off + |src| <= CAPACITY && Inv(d2, g, f2)
    requires n in f0 && |f0[n].blocks| >= DIRECT_BLOCKS && n in f1 && |f1[n].blocks| >= DIRECT_BLOCKS
    requires Only(d0, g, f0, d1, f1, n, Splice(Raw(d0, g, f0[n]), off, src[..i]))
    requires Only(d1, g, f1, d2, f2, n, Raw(d1, g, f1[n]))
    requires Owns(f2, n, (off + i) / BLOCK_SIZE) && (off + i) % BLOCK_SIZE + len <= BLOCK_SIZE
    ensures var d3 := Patched(d2, g, f2[n].blocks[(off + i) / BLOCK_SIZE], (off + i) % BLOCK_SIZE, src[i..i + len]);
            Inv(d3, g, f2) && Only(d0, g, f0, d3, f2, n, Splice(Raw(d0, g, f0[n]), off, src[..i + len]))
  {
    hide Only, Inv, Raw, Splice, Patched;
    var idx, at := (off + i) / BLOCK_SIZE, (off + i) % BLOCK_SIZE;
    var chunk := src[i..i + len];
    var raw0 := Raw(d0, g, f0[n]);
    assert idx * BLOCK_SIZE + at == off + i && src[..i] + chunk == src[..i + len];
    SpliceTwice(raw0, off, src[..i], chunk);
    OnlyRaw(d0, g, f0, d1, f1, n, Splice(raw0, off, src[..i]));
    OnlyThen(d0, g, f0, d1, f1, d2, f2, n, Raw(d1, g, f1[n]), Raw(d1, g, f1[n]));
    PatchKeepsInv(d2, g, f2, n, idx, at, chunk);
    ThenPatched(d0, g, f0, d2, f2, n, Splice(raw0, off, src[..i]), idx, at, chunk);
  }

  /** A chunk copied into the file on top of what was done to it before. */
  lemma ThenPatched(d0: Disk, g: Geometry, f0: map<nat, Inode>, d2: Disk, f2: map<nat, Inode>,
                    n: nat, raw: seq<Byte>, idx: nat, at: nat, chunk: seq<Byte>)
    requires Inv(d2, g, f2) && Only(d0, g, f0, d2, f2, n, raw)
    requires Owns(f2, n, idx) && at + |chunk| <= BLOCK_SIZE && idx * BLOCK_SIZE + at + |chunk| <= CAPACITY == |raw|
    ensures Only(d0, g, f0, Patched(d2, g, f2[n].blocks[idx], at, chunk), f2, n,
                 Splice(raw, idx * BLOCK_SIZE + at, chunk))
  {
    hide Only, Inv, Raw, Splice, Patched;
    PatchOnly(d2, g, f2, n, idx, at, chunk);
    OnlyRaw(d0, g, f0, d2, f2, n, raw);
    OnlyThen(d0, g, f0, d2, f2, Patched(d2, g, f2[n].blocks[idx], at, chunk), f2, n, raw,
             Splice(raw, idx * BLOCK_SIZE + at, chunk));
  }

  lemma ResizeKeepsInv(disk: Disk, g: Geometry, fs: map<nat, Inode>, n: nat, size: nat)
    requires Inv(disk, g, fs) && n in fs && size <= CAPACITY
    ensures Inv(disk, g, fs[n := fs[n].(size := size)])
  {
    var fs' := fs[n := fs[n].(size := size)];
    assert forall m, i :: Owns(fs', m, i) <==> Owns(fs, m, i);
    forall b
      ensures InUse(g, fs', b) <==> InUse(g, fs, b)
    {
      assert forall m, i :: Owns(fs, m, i) ==> fs'[m].blocks[i] == fs[m].blocks[i];
    }
  }

  lemma OnlyNothing(disk: Disk, g: Geometry, fs: map<nat, Inode>, n: nat)
    requires n in fs && Shaped(fs[n]) && forall m :: m in fs ==> Shaped(fs[m])
    ensures Only(disk, g, fs, disk, fs, n, Raw(disk, g, fs[n]))
  {
  }
}
