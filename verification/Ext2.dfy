/**
  ext2_alloc, ext2_get_iblock, ext2_read_content and ext2_write_content of
  src/kernel/fs/filesystem.c, working block by block through the buffer cache.  Every
  inode behaves as one byte sequence.
*/
module Ext2 {
  import opened Common
  import opened HashTables
  import opened Bits
  import opened Bio
  import opened Ext2Spec

  class FileSystem {
    const cache: Cache
    const g: Geometry
    var inodes: map<nat, Inode>
    var saved: map<nat, Inode>   // the inode table as ext2_inode_update leaves it

    /** The cache is consistent and no buffer holds unwritten changes. */
    ghost predicate Quiet()
      reads this, cache, cache.table, cache.table.entries, cache.table.model.Values
    {
      cache.Valid() && (forall b :: b in cache.table.model.Values ==> !b.dirty)
    }

    ghost predicate Valid()
      reads this, cache, cache.table, cache.table.entries, cache.table.model.Values
    {
      Quiet() && Inv(cache.disk, g, inodes)
    }

    /** Why an operation aborts: no buffer to be had, or no block left in the bitmap. */
    ghost predicate Exhausted()
      reads this, cache, cache.table
    {
      cache.Stuck() || NoneClear(BlockOf(cache.disk, g, g.bitmap), g.limit)
    }

    /** One byte sequence per inode. */
    ghost function Contents(): map<nat, seq<Byte>>
      reads this, cache
    {
      Files(cache.disk, g, inodes)
    }

    constructor (cache: Cache, g: Geometry, inodes: map<nat, Inode>)
      requires cache.Valid() && (forall b :: b in cache.table.model.Values ==> !b.dirty) && Inv(cache.disk, g, inodes)
      ensures Valid() && this.cache == cache && this.g == g && this.inodes == inodes
    {
      this.cache := cache;
      this.g := g;
      this.inodes := inodes;
      saved := inodes;
    }

    /** Read a block, copy it out, release it. */
    method ReadBlock(b: nat) returns (data: Option<Block>)
      requires Quiet() && InRange(g.device, b)
      modifies cache, cache.table, cache.table.entries, cache.table.model.Values
      ensures Quiet() && cache.table.entries == old(cache.table.entries) && cache.disk == old(cache.disk)
      ensures forall v :: v in cache.table.model.Values ==> v in old(cache.table.model.Values) || fresh(v)
      ensures if data.Some? then data.value == BlockOf(cache.disk, g, b) else Exhausted()
    {
      hide HashTable.Valid, CacheOk;
      var junk: Block := *;
      var buf := cache.Read(g.device, b, junk);
      if buf.None? {
        return None;
      }
      data := Some(buf.value.buffer);
      cache.Release(buf.value);
    }

    /** Read a block, copy `data` into it at `off`, write it, release it. */
    method PatchBlock(b: nat, off: nat, data: seq<Byte>) returns (ok: bool)
      requires Quiet() && off + |data| <= BLOCK_SIZE && InRange(g.device, b)
      modifies cache, cache.table, cache.table.entries, cache.table.model.Values
      ensures Quiet() && cache.table.entries == old(cache.table.entries)
      ensures forall v :: v in cache.table.model.Values ==> v in old(cache.table.model.Values) || fresh(v)
      ensures cache.disk == if ok then Patched(old(cache.disk), g, b, off, data) else old(cache.disk)
      ensures !ok ==> Exhausted()
    {
      hide HashTable.Valid, CacheOk;
      var junk: Block := *;
      var buf := cache.Read(g.device, b, junk);
      if buf.None? {
        return false;
      }
      cache.Modify(buf.value, Splice(buf.value.buffer, off, data));
      cache.Write(buf.value);
      cache.Release(buf.value);
      return true;
    }

    /** ext2_alloc for a block of group 0: the first clear bit is set and the block zeroed; None aborts. */
    method BlockAlloc() returns (r: Option<nat>)
      requires Quiet() && GeometryOk(g)
      modifies cache, cache.table, cache.table.entries, cache.table.model.Values
      ensures Quiet() && cache.table.entries == old(cache.table.entries)
      ensures forall v :: v in cache.table.model.Values ==> v in old(cache.table.model.Values) || fresh(v)
      ensures r.Some? ==> FirstClearBit(BlockOf(old(cache.disk), g, g.bitmap), g.limit, r.value)
      ensures r.Some? ==> cache.disk == Allocated(old(cache.disk), g, r.value)
      ensures r.None? ==> Exhausted()
    {
      hide HashTable.Valid, CacheOk;
      var junk: Block := *;
      var buf := cache.Read(g.device, g.bitmap, junk);
      if buf.None? {
        return None;
      }
      var j := FirstClear(buf.value.buffer, g.limit);
      if j == g.limit {
        cache.Release(buf.value);
        return None;
      }
      cache.Modify(buf.value, Mark(buf.value.buffer, j));
      cache.Write(buf.value);
      cache.Release(buf.value);
      var ok := PatchBlock(j, 0, ZeroBlock());
      ZeroesAll(BlockOf(WithBlock(old(cache.disk), g, g.bitmap, Mark(BlockOf(old(cache.disk), g, g.bitmap), j)), g, j));
      return if ok then Some(j) else None;
    }

    /** ext2_get_iblock for a direct block: a hole is given a zeroed block, which changes no file. */
    method GetIBlock(n: nat, idx: nat) returns (r: Option<nat>)
      requires Valid() && n in inodes && idx < DIRECT_BLOCKS && (g.first == 0 || Owns(inodes, n, idx))
      modifies this`inodes, cache, cache.table, cache.table.entries, cache.table.model.Values
      ensures cache.table.entries == old(cache.table.entries)
      ensures forall v :: v in cache.table.model.Values ==> v in old(cache.table.model.Values) || fresh(v)
      ensures r.None? ==> Exhausted()
      ensures old(Owns(inodes, n, idx)) ==> r.Some? && inodes == old(inodes) && cache.disk == old(cache.disk)
      ensures r.Some? ==> Valid() && Owns(inodes, n, idx) && r.value == inodes[n].blocks[idx]
      ensures r.Some? ==> InRange(g.device, r.value)
      ensures r.Some? ==> inodes == old(inodes)[n := Placed(old(inodes)[n], idx, r.value)]
      ensures r.Some? ==>
                Only(old(cache.disk), g, old(inodes), cache.disk, inodes, n, old(Raw(cache.disk, g, inodes[n])))
    {
      hide HashTable.Valid, CacheOk, FileSystem.Exhausted;
      if inodes[n].blocks[idx] == 0 {
        var b := BlockAlloc();
        if b.None? {
          return None;
        }
        AllocKeepsInv(old(cache.disk), g, inodes, n, idx, b.value);
        AllocOnly(old(cache.disk), g, inodes, n, idx, b.value);
        inodes := inodes[n := Placed(inodes[n], idx, b.value)];
      }
      ghost var f := inodes[n];
      assert Owns(inodes, n, idx) && f.blocks[idx := f.blocks[idx]] == f.blocks;
      assert inodes == old(inodes)[n := Placed(old(inodes)[n], idx, f.blocks[idx])];
      return Some(inodes[n].blocks[idx]);
    }

    /** One turn of ext2_read_content: `len` bytes at offset `at`, all in one block. */
    method ReadTurn(n: nat, at: nat, len: nat) returns (r: Option<seq<Byte>>)
      requires Valid() && n in inodes && Shaped(inodes[n]) && 0 < len <= BLOCK_SIZE - at % BLOCK_SIZE
      requires at / BLOCK_SIZE < DIRECT_BLOCKS && (g.first == 0 || Owns(inodes, n, at / BLOCK_SIZE))
      modifies this`inodes, cache, cache.table, cache.table.entries, cache.table.model.Values
      ensures cache.table.entries == old(cache.table.entries)
      ensures forall v :: v in cache.table.model.Values ==> v in old(cache.table.model.Values) || fresh(v)
      ensures r.None? ==> Exhausted()
      ensures g.first != 0 ==> inodes == old(inodes)
      ensures r.Some? ==> n in inodes && Filled(old(inodes)[n], inodes[n], at, at + len)
      ensures r.Some? ==> Valid()
      ensures r.Some? ==>
                Only(old(cache.disk), g, old(inodes), cache.disk, inodes, n, old(Raw(cache.disk, g, inodes[n])))
      ensures r.Some? ==> r.value == old(Raw(cache.disk, g, inodes[n]))[at..at + len]
    {
      hide HashTable.Valid, CacheOk, Cache.Valid, Only, Raw, FileSystem.Exhausted;
      ghost var raw := Raw(cache.disk, g, inodes[n]);
      var b := GetIBlock(n, at / BLOCK_SIZE);
      if b.None? {
        return None;
      }
      FilledOne(old(inodes)[n], at / BLOCK_SIZE, b.value, at, len);
      OnlyRaw(old(cache.disk), g, old(inodes), cache.disk, inodes, n, raw);
      var block := ReadBlock(b.value);
      if block.None? {
        return None;
      }
      ChunkIsSlice(cache.disk, g, inodes[n], at / BLOCK_SIZE, at % BLOCK_SIZE, len);
      return Some(block.value[at % BLOCK_SIZE..at % BLOCK_SIZE + len]);
    }

    /** The loop of ext2_read_content; the bytes come from the raw file. */
    method ReadLoop(n: nat, offset: nat, want: nat) returns (r: Option<seq<Byte>>)
      requires Valid() && n in inodes && Shaped(inodes[n]) && offset + want <= inodes[n].size
      requires Ready(g, inodes[n], offset + want)
      modifies this`inodes, cache, cache.table, cache.table.entries, cache.table.model.Values
      ensures cache.table.entries == old(cache.table.entries)
      ensures forall v :: v in cache.table.model.Values ==> v in old(cache.table.model.Values) || fresh(v)
      ensures r.None? ==> Exhausted()
      ensures g.first != 0 ==> inodes == old(inodes)
      ensures r.Some? ==> n in inodes && Filled(old(inodes)[n], inodes[n], offset, offset + want)
      ensures r.Some? ==> Valid()
      ensures r.Some? ==>
                Only(old(cache.disk), g, old(inodes), cache.disk, inodes, n, old(Raw(cache.disk, g, inodes[n])))
      ensures r.Some? ==> r.value == old(Raw(cache.disk, g, inodes[n]))[offset..offset + want]
    {
      hide HashTable.Valid, CacheOk, Cache.Valid, Inv, Only, Raw, FileSystem.Exhausted, Ready, Quiet, Filled;
      ghost var raw := Raw(cache.disk, g, inodes[n]);
      StartOnly(cache.disk, g, inodes, n);
      FilledNothing(inodes[n], offset);
      var dst: seq<Byte> := [];
      while |dst| < want
        invariant |dst| <= want && n in inodes && Shaped(inodes[n])
        invariant Valid() && cache.table.entries == old(cache.table.entries) && Ready(g, inodes[n], offset + want)
        invariant forall v :: v in cache.table.model.Values ==> v in old(cache.table.model.Values) || fresh(v)
        invariant g.first != 0 ==> inodes == old(inodes)
        invariant Only(old(cache.disk), g, old(inodes), cache.disk, inodes, n, raw)
        invariant Filled(old(inodes)[n], inodes[n], offset, offset + |dst|)
        invariant dst == raw[offset..offset + |dst|]
      {
        var at := offset + |dst|;
        var len := Chunk(want - |dst|, at);
        ReadyAt(g, inodes, n, offset + want, at);
        ghost var disk, fs := cache.disk, inodes;
        OnlyRaw(old(cache.disk), g, old(inodes), disk, fs, n, raw);
        var part := ReadTurn(n, at, len);
        if part.None? {
          return None;
        }
        OnlyThen(old(cache.disk), g, old(inodes), disk, fs, cache.disk, inodes, n, raw, raw);
        FilledThen(old(inodes)[n], fs[n], inodes[n], offset, at, at + len);
        StillReady(cache.disk, g, fs, inodes, n, offset + want);
        NextSlice(raw, offset, at, len);
        dst := dst + part.value;
      }
      return Some(dst);
    }

    /**
      ext2_read_content: the slice of the file that lies within its size; None aborts.  A hole
      that the read meets is filled in the inode but not in the inode table.
    */
    method ReadContent(n: nat, offset: nat, size: nat) returns (r: Option<seq<Byte>>)
      requires Valid() && n in inodes && offset + size < TWO32 && Ready(g, inodes[n], inodes[n].size)
      modifies this`inodes, cache, cache.table, cache.table.entries, cache.table.model.Values
      ensures cache.table.entries == old(cache.table.entries)
      ensures forall v :: v in cache.table.model.Values ==> v in old(cache.table.model.Values) || fresh(v)
      ensures r.None? ==> Exhausted()
      ensures r.Some? ==> Valid() && Contents() == old(Contents()) && Kept(g, old(inodes), inodes)
      ensures r.Some? ==> r.value == SliceOf(old(FileOf(Contents(), n)), offset, size)
      ensures r.Some? && old(saved == inodes) ==>
                (saved == inodes <==> !MeetsHole(old(inodes)[n], offset, offset + |r.value|))
    {
      hide HashTable.Valid, CacheOk, Cache.Valid, Inv, Only, Files, FileSystem.Exhausted, Filled, MeetsHole;
      FileIsBytes(cache.disk, g, inodes, n);
      if offset > inodes[n].size {
        NothingMet(inodes[n], offset);
        return Some([]);
      }
      var want := Wanted(inodes[n].size, offset, size);
      SliceOfRaw(Raw(cache.disk, g, inodes[n]), inodes[n].size, offset, size);
      r := ReadLoop(n, offset, want);
      if r.Some? {
        OnlySame(old(cache.disk), g, old(inodes), cache.disk, inodes, n);
        FilledIff(old(inodes)[n], inodes[n], offset, offset + want);
        OnlyInode(old(cache.disk), g, old(inodes), cache.disk, inodes, n, Raw(old(cache.disk), g, old(inodes)[n]));
      }
    }

    /** One turn of ext2_write_content: the chunk from `i` on, all in one block. */
    method WriteTurnAt(n: nat, src: seq<Byte>, offset: nat, i: nat, len: nat,
                       ghost disk0: Disk, ghost fs0: map<nat, Inode>) returns (ok: bool)
      requires Valid() && n in inodes && Shaped(inodes[n]) && i + len <= |src| && offset + |src| <= CAPACITY
      requires n in fs0 && Shaped(fs0[n]) && (offset + i) % BLOCK_SIZE + len <= BLOCK_SIZE
      requires (offset + i) / BLOCK_SIZE < DIRECT_BLOCKS
      requires g.first == 0 || Owns(inodes, n, (offset + i) / BLOCK_SIZE)
      requires Only(disk0, g, fs0, cache.disk, inodes, n, Splice(Raw(disk0, g, fs0[n]), offset, src[..i]))
      modifies this`inodes, cache, cache.table, cache.table.entries, cache.table.model.Values
      ensures cache.table.entries == old(cache.table.entries)
      ensures forall v :: v in cache.table.model.Values ==> v in old(cache.table.model.Values) || fresh(v)
      ensures !ok ==> Exhausted()
      ensures g.first != 0 ==> inodes == old(inodes)
      ensures ok ==> Valid() && n in inodes && Shaped(inodes[n])
      ensures ok ==> Only(disk0, g, fs0, cache.disk, inodes, n, Splice(Raw(disk0, g, fs0[n]), offset, src[..i + len]))
    {
      hide HashTable.Valid, CacheOk, Cache.Valid, Only, Raw, FileSystem.Exhausted, Splice;
      var at := offset + i;
      var b := GetIBlock(n, at / BLOCK_SIZE);
      if b.None? {
        return false;
      }
      WriteTurn(disk0, g, fs0, old(cache.disk), old(inodes), cache.disk, inodes, n, offset, src, i, len);
      ok := PatchBlock(b.value, at % BLOCK_SIZE, src[i..i + len]);
    }

    /** The loop of ext2_write_content: the data ends up spliced into the raw file. */
    method WriteLoop(n: nat, src: seq<Byte>, offset: nat) returns (ok: bool)
      requires Valid() && n in inodes && Shaped(inodes[n]) && offset + |src| <= CAPACITY
      requires Ready(g, inodes[n], offset + |src|)
      modifies this`inodes, cache, cache.table, cache.table.entries, cache.table.model.Values
      ensures cache.table.entries == old(cache.table.entries)
      ensures forall v :: v in cache.table.model.Values ==> v in old(cache.table.model.Values) || fresh(v)
      ensures !ok ==> Exhausted()
      ensures g.first != 0 ==> inodes == old(inodes)
      ensures ok ==> Valid() && Only(old(cache.disk), g, old(inodes), cache.disk, inodes, n,
                                     Splice(old(Raw(cache.disk, g, inodes[n])), offset, src))
    {
      hide HashTable.Valid, CacheOk, Cache.Valid, Inv, Only, Raw, FileSystem.Exhausted, Ready, Quiet;
      ghost var raw := Raw(cache.disk, g, inodes[n]);
      StartOnly(cache.disk, g, inodes, n);
      assert Splice(raw, offset, src[..0]) == raw;
      var i := 0;
      while i < |src|
        invariant i <= |src| && n in inodes && Shaped(inodes[n])
        invariant Valid() && cache.table.entries == old(cache.table.entries) && Ready(g, inodes[n], offset + |src|)
        invariant forall v :: v in cache.table.model.Values ==> v in old(cache.table.model.Values) || fresh(v)
        invariant g.first != 0 ==> inodes == old(inodes)
        invariant Only(old(cache.disk), g, old(inodes), cache.disk, inodes, n, Splice(raw, offset, src[..i]))
      {
        var len := Chunk(|src| - i, offset + i);
        ReadyAt(g, inodes, n, offset + |src|, offset + i);
        ghost var fs := inodes;
        ok := WriteTurnAt(n, src, offset, i, len, old(cache.disk), old(inodes));
        if !ok {
          return;
        }
        StillReady(cache.disk, g, fs, inodes, n, offset + |src|);
        i := i + len;
      }
      assert src[..i] == src;
      return true;
    }

    /**
      ext2_write_content: -1 beyond the end of the file, else the data is spliced in (so the
      size is the larger of the old size and the end of the data) and no other file changes.
    */
    method WriteContent(n: nat, src: seq<Byte>, offset: nat) returns (r: Option<int>)
      requires Valid() && n in inodes && offset + |src| <= CAPACITY && Ready(g, inodes[n], offset + |src|)
      modifies this`inodes, this`saved, cache, cache.table, cache.table.entries, cache.table.model.Values
      ensures cache.table.entries == old(cache.table.entries)
      ensures forall v :: v in cache.table.model.Values ==> v in old(cache.table.model.Values) || fresh(v)
      ensures if r.Some? then Valid() && Kept(g, old(inodes), inodes) else Exhausted()
      ensures offset > |old(FileOf(Contents(), n))| ==> r == Some(-1) && Contents() == old(Contents())
      ensures offset <= |old(FileOf(Contents(), n))| && r.Some? ==>
                && r.value == |src| && saved == old(saved)[n := inodes[n]]
                && inodes == old(inodes)[n := inodes[n]] && (old(saved - {n} == inodes - {n}) ==> saved == inodes)
                && Contents() == old(Contents())[n := Splice(old(FileOf(Contents(), n)), offset, src)]
    {
      hide HashTable.Valid, CacheOk, Cache.Valid, Inv, Only, Files, Raw, Splice, Kept, FileSystem.Exhausted;
      FileIsBytes(cache.disk, g, inodes, n);
      if offset > inodes[n].size {
        KeptGrown(g, inodes, inodes, n, inodes[n].size, offset + |src|);
        assert inodes[n := inodes[n].(size := inodes[n].size)] == inodes;
        return Some(-1);
      }
      var ok := WriteLoop(n, src, offset);
      if !ok {
        return None;
      }
      OnlyInode(old(cache.disk), g, old(inodes), cache.disk, inodes, n,
                Splice(Raw(old(cache.disk), g, old(inodes)[n]), offset, src));
      OnlySpliced(old(cache.disk), g, old(inodes), cache.disk, inodes, n, offset, src);
      var end := offset + |src|;
      var size := if end > inodes[n].size then end else inodes[n].size;
      ResizeKeepsInv(cache.disk, g, inodes, n, size);
      KeptGrown(g, old(inodes), inodes, n, size, end);
      inodes := inodes[n := inodes[n].(size := size)];
      saved := saved[n := inodes[n]];
      Resync(old(saved), old(inodes), n, inodes[n]);
      return Some(|src|);
    }

    method Answer(q: Request) returns (reply: Option<Result>)
      requires Valid() && q.n in inodes && InScope(q) && Servable(g, inodes, q)
      modifies this`inodes, this`saved, cache, cache.table, cache.table.entries, cache.table.model.Values
      ensures cache.table.entries == old(cache.table.entries)
      ensures forall v :: v in cache.table.model.Values ==> v in old(cache.table.model.Values) || fresh(v)
      ensures if reply.Some? then Valid() && Kept(g, old(inodes), inodes) else Exhausted()
      ensures reply.Some? ==> Contents() == AfterRequest(old(Contents()), q) && reply.value == Reply(old(Contents()), q)
    {
      hide FileSystem.Valid, Files, Splice, FileSystem.Exhausted;
      match q {
        case WriteAt(n, src, offset) =>
          var w := WriteContent(n, src, offset);
          return if w.Some? then Some(Written(w.value)) else None;
        case ReadAt(n, offset, size) =>
          var bytes := ReadContent(n, offset, size);
          return if bytes.Some? then Some(Got(bytes.value)) else None;
      }
    }

    /**
      Any sequence of reads and writes on any inodes is answered as by separate byte
      sequences.  On an image with first_data_block 1 that holds for requests that need no
      new block.
    */
    method Serve(qs: seq<Request>) returns (replies: Option<seq<Result>>)
      requires Valid() && forall k :: 0 <= k < |qs| ==> InScope(qs[k]) && Servable(g, inodes, qs[k])
      modifies this`inodes, this`saved, cache, cache.table, cache.table.entries, cache.table.model.Values
      ensures replies.None? ==> Exhausted()
      ensures replies.Some? ==> Valid() && Contents() == AfterAll(old(Contents()), qs) && |replies.value| == |qs|
      ensures replies.Some? ==> Replies(old(Contents()), qs, replies.value)
    {
      hide FileSystem.Valid, Files, AfterRequest, AfterAll, Reply, Replies, FileSystem.Exhausted, Servable, Kept;
      var out: seq<Result> := [];
      ghost var files := Contents();
      NoReplies(files);
      while |out| < |qs|
        invariant |out| <= |qs| && Valid() && cache.table.entries == old(cache.table.entries)
        invariant forall v :: v in cache.table.model.Values ==> v in old(cache.table.model.Values) || fresh(v)
        invariant forall k :: 0 <= k < |qs| ==> InScope(qs[k]) && Servable(g, inodes, qs[k])
        invariant Contents() == AfterAll(files, qs[..|out|]) && Replies(files, qs[..|out|], out)
      {
        ghost var fs := inodes;
        ServableInode(g, inodes, qs[|out|]);
        var reply := Answer(qs[|out|]);
        if reply.None? {
          return None;
        }
        ServableKept(g, fs, inodes, qs);
        AfterOne(files, qs, |out|, out, reply.value);
        out := out + [reply.value];
      }
      assert qs[..|out|] == qs;
      return Some(out);
    }
  }

  // ---------- The abstract file system ----------

  datatype Request = WriteAt(n: nat, src: seq<Byte>, offset: nat) | ReadAt(n: nat, offset: nat, size: nat)

  /** The byte count or -1 that a write returns, or the bytes that a read delivers. */
  datatype Result = Written(count: int) | Got(bytes: seq<Byte>)

  /** Within the twelve direct blocks, and no wrap of offset + size. */
  predicate InScope(q: Request) {
    match q
    case WriteAt(_, src, offset) => offset + |src| <= CAPACITY
    case ReadAt(_, offset, size) => offset + size < TWO32
  }

  ghost function AfterRequest(files: map<nat, seq<Byte>>, q: Request): map<nat, seq<Byte>> {
    match q
    case ReadAt(_, _, _) => files
    case WriteAt(n, src, offset) =>
      if offset > |FileOf(files, n)| then files else files[n := Splice(FileOf(files, n), offset, src)]
  }

  ghost function AfterAll(files: map<nat, seq<Byte>>, qs: seq<Request>): map<nat, seq<Byte>> {
    if qs == [] then files else AfterRequest(AfterAll(files, qs[..|qs| - 1]), qs[|qs| - 1])
  }

  ghost function Reply(files: map<nat, seq<Byte>>, q: Request): Result {
    match q
    case WriteAt(n, src, offset) => Written(if offset > |FileOf(files, n)| then -1 else |src|)
    case ReadAt(n, offset, size) => Got(SliceOf(FileOf(files, n), offset, size))
  }

  /** Request `k` was answered from what the earlier ones left. */
  ghost predicate Answered(files: map<nat, seq<Byte>>, qs: seq<Request>, k: nat, reply: Result)
    requires k < |qs|
  {
    reply == Reply(AfterAll(files, qs[..k]), qs[k])
  }

  ghost predicate Replies(files: map<nat, seq<Byte>>, qs: seq<Request>, out: seq<Result>) {
    |out| == |qs| && forall k :: 0 <= k < |out| ==> Answered(files, qs, k, out[k])
  }

  lemma NoReplies(files: map<nat, seq<Byte>>)
    ensures AfterAll(files, []) == files && Replies(files, [], [])
  {
  }

  lemma AnsweredInPrefix(files: map<nat, seq<Byte>>, qs: seq<Request>, n: nat, k: nat, reply: Result)
    requires k < n <= |qs|
    ensures Answered(files, qs[..n], k, reply) <==> Answered(files, qs, k, reply)
  {
    assert qs[..n][..k] == qs[..k];
  }

  lemma AfterOne(files: map<nat, seq<Byte>>, qs: seq<Request>, k: nat, out: seq<Result>, reply: Result)
    requires k < |qs| && Replies(files, qs[..k], out) && reply == Reply(AfterAll(files, qs[..k]), qs[k])
    ensures AfterAll(files, qs[..k + 1]) == AfterRequest(AfterAll(files, qs[..k]), qs[k])
    ensures Replies(files, qs[..k + 1], out + [reply])
  {
    var all := out + [reply];
    assert qs[..k + 1][..k] == qs[..k];
    assert Answered(files, qs, k, reply);
    hide AfterAll, AfterRequest, Reply, Answered;
    forall i | 0 <= i < |all|
      ensures Answered(files, qs[..k + 1], i, all[i])
    {
      AnsweredInPrefix(files, qs, k + 1, i, all[i]);
      if i < k {
        AnsweredInPrefix(files, qs, k, i, out[i]);
      }
    }
  }

  /** The inode exists, and no block has to be allocated where that would not be sound. */
  ghost predicate Servable(g: Geometry, fs: map<nat, Inode>, q: Request) {
    && q.n in fs && Ready(g, fs[q.n], fs[q.n].size)
    && (q.WriteAt? ==> Ready(g, fs[q.n], q.offset + |q.src|))
  }

  lemma ServableInode(g: Geometry, fs: map<nat, Inode>, q: Request)
    requires Servable(g, fs, q)
    ensures q.n in fs
  {
  }

  lemma ServableKept(g: Geometry, fs: map<nat, Inode>, fs': map<nat, Inode>, qs: seq<Request>)
    requires Kept(g, fs, fs') && forall k :: 0 <= k < |qs| ==> Servable(g, fs, qs[k])
    ensures forall k :: 0 <= k < |qs| ==> Servable(g, fs', qs[k])
  {
  }

  /** The length of one memcpy: to the end of the block or of the request. */
  function Chunk(rest: nat, at: nat): (len: nat)
    ensures len <= rest && at % BLOCK_SIZE + len <= BLOCK_SIZE && (rest > 0 ==> len > 0)
  {
    if rest < BLOCK_SIZE - at % BLOCK_SIZE then rest else BLOCK_SIZE - at % BLOCK_SIZE
  }

  /** What a read may return: nothing beyond the end, and no more than is there. */
  function SliceOf(bytes: seq<Byte>, offset: nat, size: nat): seq<Byte> {
    if offset > |bytes| then []
    else if offset + size > |bytes| then bytes[offset..]
    else bytes[offset..offset + size]
  }

  /** It is as long as asked for or as the file goes on, and byte k is byte offset + k of the file. */
  lemma SliceAt(bytes: seq<Byte>, offset: nat, size: nat)
    ensures var r := SliceOf(bytes, offset, size);
            && |r| == (if offset >= |bytes| then 0 else if size < |bytes| - offset then size else |bytes| - offset)
            && forall k :: 0 <= k < |r| ==> r[k] == bytes[offset + k]
  {
  }

  /** The number of bytes ext2_read_content sets out to copy, in 32-bit arithmetic. */
  function Wanted(end: nat, offset: nat, size: nat): nat
    requires offset <= end
  {
    if (offset + size) % TWO32 > end then end - offset else size
  }

  /** The read stays within the file exactly when offset + size does not wrap around. */
  lemma ReadStaysInsideIff(end: nat, offset: nat, size: nat)
    requires offset <= end <= CAPACITY && size < TWO32
    ensures offset + Wanted(end, offset, size) <= end <==> offset + size < TWO32
  {
    if offset + size >= TWO32 {
      assert (offset + size) % TWO32 == offset + size - TWO32;
    }
  }

  /** Asking for 2^32 - 1 bytes at offset 5 of a ten-byte file makes the code set out to copy them all. */
  lemma WrappingReadOverruns()
    ensures Wanted(10, 5, TWO32 - 1) == TWO32 - 1
  {
    ReadStaysInsideIff(10, 5, TWO32 - 1);
  }

  /** A file that grew within its blocks still has no hole, and one that could not grow did not. */
  lemma KeptGrown(g: Geometry, fs: map<nat, Inode>, fs': map<nat, Inode>, n: nat, size: nat, end: nat)
    requires n in fs && fs'.Keys == fs.Keys && (g.first != 0 ==> fs' == fs) && Ready(g, fs[n], end)
    requires size == fs[n].size || size == end
    ensures Kept(g, fs, fs'[n := fs'[n].(size := size)])
  {
  }

  /** Saving inode `n` settles all differences that were in inode `n`. */
  lemma Resync(table: map<nat, Inode>, fs: map<nat, Inode>, n: nat, f: Inode)
    ensures table - {n} == fs - {n} ==> table[n := f] == fs[n := f]
  {
    assert table[n := f] == (table - {n})[n := f] && fs[n := f] == (fs - {n})[n := f];
  }

  lemma NothingMet(f: Inode, at: nat)
    ensures !MeetsHole(f, at, at)
  {
  }

  lemma OnlyInode(disk: Disk, g: Geometry, fs: map<nat, Inode>, disk': Disk, fs': map<nat, Inode>,
                  n: nat, raw: seq<Byte>)
    requires Only(disk, g, fs, disk', fs', n, raw)
    ensures n in fs' && fs' == fs[n := fs'[n]]
  {
  }

  lemma NextSlice(raw: seq<Byte>, offset: nat, at: nat, len: nat)
    requires offset <= at && at + len <= |raw|
    ensures raw[offset..at] + raw[at..at + len] == raw[offset..at + len]
  {
  }

  lemma StartOnly(disk: Disk, g: Geometry, fs: map<nat, Inode>, n: nat)
    requires Inv(disk, g, fs) && n in fs && |fs[n].blocks| >= DIRECT_BLOCKS
    ensures Only(disk, g, fs, disk, fs, n, Raw(disk, g, fs[n]))
  {
    OnlyNothing(disk, g, fs, n);
  }

  lemma StillReady(disk: Disk, g: Geometry, fs: map<nat, Inode>, fs': map<nat, Inode>, n: nat, end: nat)
    requires n in fs && Ready(g, fs[n], end) && (g.first != 0 ==> fs' == fs) && n in fs' && Inv(disk, g, fs')
    ensures Ready(g, fs'[n], end) && Shaped(fs'[n])
  {
  }

  /** Reading within the size and reading the raw bytes agree. */
  lemma SliceOfRaw(raw: seq<Byte>, end: nat, offset: nat, size: nat)
    requires offset <= end <= |raw|
    ensures var want := if offset + size > end then end - offset else size;
            SliceOf(raw[..end], offset, size) == raw[offset..offset + want]
  {
  }

  /** The search loop of ext2_alloc over one bitmap block. */
  method FirstClear(bm: Block, limit: nat) returns (j: nat)
    requires limit <= 8 * BLOCK_SIZE
    ensures j <= limit && (forall i :: 0 <= i < j ==> Marked(bm, i)) && (j < limit ==> !Marked(bm, j))
  {
    j := 0;
    while j < limit && Marked(bm, j)
      invariant j <= limit && forall i :: 0 <= i < j ==> Marked(bm, i)
    {
      j := j + 1;
    }
  }
}
