/**
  The buffer cache of src/kernel/fs/bio.c: buffers found through the hash table, counted
  references, a list of unreferenced buffers to evict from, and write-through to the disk.
*/
module Bio {
  import opened Common
  import opened HashSpec
  import opened HashTables

  type Block = b: seq<Byte> | |b| == BLOCK_SIZE witness seq(BLOCK_SIZE, _ => 0)

  function ZeroBlock(): Block {
    seq(BLOCK_SIZE, _ => 0)
  }

  // ---------- Keys and places ----------

  /** The 64-bit key: the device in the upper half, the block in the lower. */
  function KeyOf(device: nat, block: nat): nat {
    device * TWO32 + block
  }

  /** Different blocks have different keys. */
  lemma KeysDiffer(d: nat, b: nat, e: nat, c: nat)
    requires b < TWO32 && c < TWO32 && KeyOf(d, b) == KeyOf(e, c)
    ensures d == e && b == c
  {
  }

  /** Where the disk driver finds a block: a device number of eight bits, a byte address of 32. */
  datatype Place = Place(device: nat, address: nat)

  /** The place of a block; the product block * size is cut to 32 bits. */
  function PlaceOf(device: nat, block: nat): (p: Place)
    ensures InRange(device, block) ==> p == Place(device, block * BLOCK_SIZE)
  {
    Place(device % 256, block * BLOCK_SIZE % TWO32)
  }

  /** The device number and the byte address of the block fit. */
  predicate InRange(device: nat, block: nat) {
    device < 256 && block * BLOCK_SIZE < TWO32
  }

  /** Different blocks of some devices of some size all have places of their own. */
  ghost predicate PlacesDiffer(devices: nat, blocks: nat) {
    forall d, b, e, c :: 0 <= d < devices && 0 <= b < blocks && 0 <= e < devices && 0 <= c < blocks ==>
      PlaceOf(d, b) == PlaceOf(e, c) ==> d == e && b == c
  }

  /** They do if and only if there are at most 256 devices and none has more than 2^22 blocks. */
  lemma PlacesDifferIff(devices: nat, blocks: nat)
    requires devices > 0 && blocks > 0
    ensures PlacesDiffer(devices, blocks) <==> devices <= 256 && blocks <= 0x40_0000
  {
    if devices > 256 {
      assert PlaceOf(256, 0) == PlaceOf(0, 0);
    }
    if blocks > 0x40_0000 {
      assert PlaceOf(0, 0x40_0000) == PlaceOf(0, 0);
    }
  }

  /** Blocks 0 and 2^22 of a device have different buffers, but what is written to one is read from the other. */
  lemma BlocksShareAPlace(disk: Disk, data: Block)
    ensures KeyOf(0, 0x40_0000) != KeyOf(0, 0)
    ensures Content(disk[PlaceOf(0, 0x40_0000) := data], PlaceOf(0, 0)) == data
  {
  }

  /** What is on the disks; places never written hold zeros. */
  type Disk = map<Place, Block>

  function Content(disk: Disk, p: Place): Block {
    if p in disk then disk[p] else ZeroBlock()
  }

  /** A write changes one place. */
  lemma ContentAfterWrite(disk: Disk, p: Place, data: Block, q: Place)
    ensures Content(disk[p := data], q) == if q == p then data else Content(disk, q)
  {
  }

  /** bio_buf_t. `dirty` marks contents that differ from the disk on purpose. */
  class Buf {
    const device: nat
    const block: nat
    const key: nat   // of the table
    var refCount: nat
    var valid: bool
    var buffer: Block
    ghost var dirty: bool

    /** bio_alloc; the buffer is uninitialised memory. */
    constructor (device: nat, block: nat, junk: Block)
      ensures this.device == device && this.block == block && key == KeyOf(device, block)
      ensures refCount == 1 && !valid && !dirty
    {
      this.device, this.block, key := device, block, KeyOf(device, block);
      refCount, valid, buffer, dirty := 1, false, junk, false;
    }
  }

  /** An up-to-date buffer agrees with the disk, and an unreferenced one holds nothing unwritten. */
  ghost predicate BufOk(b: Buf, disk: Disk)
    reads b
  {
    && b.block < TWO32 && b.key == KeyOf(b.device, b.block)
    && (b.valid ==> InRange(b.device, b.block))
    && (b.valid && !b.dirty ==> b.buffer == Content(disk, PlaceOf(b.device, b.block)))
    && (b.refCount == 0 ==> !b.dirty)
  }

  /** Writing a block leaves the other buffers in agreement with the disk. */
  lemma WriteSparesOthers(b: Buf, buf: Buf, disk: Disk, data: Block)
    requires BufOk(b, disk) && BufOk(buf, disk) && b.key != buf.key && InRange(buf.device, buf.block)
    ensures BufOk(b, disk[PlaceOf(buf.device, buf.block) := data])
  {
  }

  /** The cached buffers `m` and the list `free` of those without references. */
  ghost predicate CacheOk(m: map<nat, Buf>, free: seq<Buf>, disk: Disk)
    reads m.Values
  {
    && (forall k :: k in m ==> m[k].key == k && BufOk(m[k], disk))
    && (forall b :: b in free ==> b.key in m && m[b.key] == b && b.refCount == 0)
    && (forall i, j :: 0 <= i < j < |free| ==> free[i] != free[j])
    && (forall k :: k in m && m[k].refCount == 0 ==> m[k] in free)
  }

  class Cache {
    const table: HashTable<nat, Buf>
    var free: seq<Buf>   // from bio_head.lhead to bio_head.ltail
    var disk: Disk

    ghost predicate Valid()
      reads this, table, table.entries, table.model.Values
    {
      table.Valid() && !table.resizable && CacheOk(table.model, free, disk)
    }

    /** The load gate of the table is shut: the next new buffer will be refused. */
    ghost predicate Shut()
      reads this, table
    {
      Overloaded(table.size, table.capacity, table.maxLoad)
    }

    /** Where bio_get aborts: the gate is shut and there is nothing left to evict. */
    ghost predicate Stuck()
      reads this, table
    {
      Shut() && free == []
    }

    /** bio_init: a table for 50 buffers at 75 percent load that may not grow. */
    constructor (hash: nat -> nat, disk: Disk)
      ensures Valid() && table.model == map[] && this.disk == disk && fresh(table) && fresh(table.entries)
    {
      hide PrimeAbove, BeyondPrimes;
      SmallDemand(50 * 100 % TWO32 / 75);
      var t := Create(hash, 50, 75, false);
      table := t.value;
      free := [];
      this.disk := disk;
    }

    /** bio_evict: false is an abort, when no buffer is free.  Referenced buffers stay. */
    method Evict() returns (ok: bool)
      requires Valid()
      modifies this`free, table, table.entries
      ensures Valid() && table.entries == old(table.entries)
      ensures ok <==> old(free) != []
      ensures ok ==> free == old(free)[..|old(free)| - 1] && table.model == old(table.model) - {old(free)[|free|].key}
      ensures ok ==> Evicted(old(table.model), table.model)
      ensures !ok ==> free == [] && table.model == old(table.model) && (Shut() <==> old(Shut()))
    {
      hide HashTable.Valid, CacheOk;
      if free == [] {
        return false;
      }
      var victim := free[|free| - 1];
      EvictKeepsCache(table.model, free, disk);
      ok := table.Remove(victim.key);
      free := free[..|free| - 1];
    }

    /** A cache hit of bio_get: one more reference, and the buffer leaves the free list. */
    method Reference(buf: Buf)
      requires Valid() && buf.key in table.model && table.model[buf.key] == buf
      modifies this`free, buf`refCount
      ensures Valid() && buf.refCount == old(buf.refCount) + 1
      ensures old(buf.refCount) > 0 ==> free == old(free)
      ensures old(buf.refCount) == 0 ==>
                exists i :: 0 <= i < |old(free)| && old(free)[i] == buf && free == Without(old(free), i)
    {
      hide HashTable.Valid, Without;
      ghost var listed := free;
      if buf.refCount == 0 {
        var i := 0;
        while free[i] != buf
          invariant 0 <= i < |free| && free == listed && buf in free[i..]
          decreases |free| - i
        {
          i := i + 1;
        }
        RemoveAt(free, i);
        free := Without(free, i);
      }
      buf.refCount := buf.refCount + 1;
    }

    /** A cache miss of bio_get once there is room: the new buffer is entered in the table. */
    method Enter(buf: Buf) returns (stored: bool)
      requires Valid() && buf.key !in table.model && BufOk(buf, disk) && buf.refCount > 0
      modifies table, table.entries
      ensures Valid() && table.entries == old(table.entries)
      ensures table.model == if stored then old(table.model)[buf.key := buf] else old(table.model)
      ensures (stored <==> !old(Shut())) && (!stored ==> Shut())
    {
      NotShadowed(table.entries[..], table.model, buf.key, Home(table.hash, buf.key, table.capacity));
      hide HashTable.Valid, CacheOk;
      var r := table.Set(buf.key, buf);
      stored := r == Stored;
      if stored {
        EnterKeepsCache(old(table.model), free, disk, buf);
      }
    }

    /** The eviction loop of bio_get: retried until the table takes the buffer or nothing is free. */
    method EvictAndEnter(buf: Buf) returns (stored: bool)
      requires Valid() && buf.key !in table.model && BufOk(buf, disk) && buf.refCount > 0 && Shut()
      modifies this`free, table, table.entries
      ensures Valid() && table.entries == old(table.entries)
      ensures if stored then buf.key in table.model && table.model[buf.key] == buf else buf.key !in table.model
      ensures Evicted(old(table.model), table.model - {buf.key}) && (!stored ==> Stuck())
    {
      hide HashTable.Valid, CacheOk, Evicted;
      stored := false;
      EvictedNone(table.model);
      while true
        invariant Valid() && buf.key !in table.model && table.entries == old(table.entries)
        invariant Evicted(old(table.model), table.model) && Shut()
        decreases |free|
      {
        ghost var before := table.model;
        assert before - {buf.key} == before;
        var ok := Evict();
        if !ok {
          return false;
        }
        ghost var m := table.model;
        EvictedThen(old(table.model), before, m);
        stored := Enter(buf);
        assert table.model - {buf.key} == m;
        if stored || free == [] {
          return;
        }
      }
    }

    /** bio_get: None is an abort, with the gate shut and no buffer left to evict. */
    method Get(device: nat, block: nat, junk: Block) returns (r: Option<Buf>)
      requires Valid() && block < TWO32
      modifies this`free, table, table.entries, table.model.Values`refCount
      ensures Valid() && table.entries == old(table.entries)
      ensures r.Some? ==> r.value.device == device && r.value.block == block && r.value.key == KeyOf(device, block)
      ensures r.Some? ==> r.value.refCount > 0
      ensures if r.Some? then KeyOf(device, block) in table.model && table.model[KeyOf(device, block)] == r.value
              else KeyOf(device, block) !in table.model && Stuck()
      ensures KeyOf(device, block) in old(table.model) ==>
                table.model == old(table.model) && r.Some? &&
                    r.value.refCount == old(table.model[KeyOf(device, block)].refCount) + 1
      ensures KeyOf(device, block) !in old(table.model) ==>
                && (r.Some? ==> fresh(r.value) && r.value.refCount == 1 && !r.value.valid && !r.value.dirty)
                && Evicted(old(table.model), table.model - {KeyOf(device, block)})
      ensures forall b :: b in old(table.model.Values) && b.key != KeyOf(device, block) ==>
              b.refCount == old(b.refCount)
    {
      hide HashTable.Valid;
      var key := KeyOf(device, block);
      var found := table.Get(key);
      if found.Some? {
        KeysDiffer(found.value.device, found.value.block, device, block);
        Reference(found.value);
        return found;
      }
      hide CacheOk;
      var buf := new Buf(device, block, junk);
      var stored := Enter(buf);
      if !stored {
        stored := EvictAndEnter(buf);
      }
      assert old(table.model) - {key} == old(table.model);
      return if stored then Some(buf) else None;
    }

    /** The end of bio_read, under the buffer's mutex: fetch the block unless it is up to date. */
    method Fill(buf: Buf)
      requires Valid() && buf.key in table.model && table.model[buf.key] == buf && !buf.dirty
      requires InRange(buf.device, buf.block)
      modifies buf`buffer, buf`valid
      ensures Valid() && buf.valid && buf.buffer == Content(disk, PlaceOf(buf.device, buf.block))
    {
      hide HashTable.Valid;
      if !buf.valid {
        buf.buffer := Content(disk, PlaceOf(buf.device, buf.block));
        buf.valid := true;
      }
    }

    /**
      bio_read: the block's last written contents, whether they were cached, invalidated by
      a write, or evicted and fetched again.  Acquiring the buffer's mutex waits for a
      holder with unwritten changes.  Beyond the range, PlacesDifferIff, blocks share places.
    */
    method Read(device: nat, block: nat, junk: Block) returns (r: Option<Buf>)
      requires Valid() && InRange(device, block)
      requires KeyOf(device, block) in table.model ==> !table.model[KeyOf(device, block)].dirty
      modifies this`free, table, table.entries
      modifies table.model.Values`refCount, table.model.Values`buffer, table.model.Values`valid
      ensures Valid() && table.entries == old(table.entries)
      ensures forall b :: b in table.model.Values && b !in old(table.model.Values) ==> fresh(b) && !b.dirty
      ensures r.None? ==> Stuck()
      ensures r.Some? ==> r.value.device == device && r.value.block == block
      ensures r.Some? ==> r.value.buffer == Content(disk, PlaceOf(device, block))
      ensures r.Some? ==> r.value.key in table.model && table.model[r.value.key] == r.value
      ensures r.Some? ==> r.value.refCount > 0 && !r.value.dirty
    {
      hide HashTable.Valid, CacheOk;
      r := Get(device, block, junk);
      NewValues(old(table.model), table.model, KeyOf(device, block));
      if r.Some? {
        Fill(r.value);
      }
    }

    /** A holder changes the buffer in place. */
    method Modify(buf: Buf, data: Block)
      requires Valid() && buf.key in table.model && table.model[buf.key] == buf && buf.refCount > 0
      modifies buf`buffer, buf`dirty
      ensures Valid() && buf.buffer == data && buf.dirty
    {
      hide HashTable.Valid;
      buf.buffer := data;
      buf.dirty := true;
    }

    /** bio_write: the contents reach the disk and the buffer is invalidated. */
    method Write(buf: Buf)
      requires Valid() && buf.key in table.model && table.model[buf.key] == buf && InRange(buf.device, buf.block)
      modifies this`disk, buf`valid, buf`dirty
      ensures Valid() && disk == old(disk)[PlaceOf(buf.device, buf.block) := buf.buffer] && !buf.dirty
    {
      hide HashTable.Valid, PlaceOf, Content;
      ghost var before := disk;
      disk := disk[PlaceOf(buf.device, buf.block) := buf.buffer];
      forall k | k in table.model && k != buf.key
        ensures BufOk(table.model[k], disk)
      {
        WriteSparesOthers(table.model[k], buf, before, buf.buffer);
      }
      buf.valid := false;
      buf.dirty := false;
    }

    /** bio_release: the last reference puts the buffer at the front of the free list. */
    method Release(buf: Buf)
      requires Valid() && buf.key in table.model && table.model[buf.key] == buf && buf.refCount > 0 && !buf.dirty
      modifies this`free, buf`refCount
      ensures Valid() && buf.refCount == old(buf.refCount) - 1
      ensures free == if buf.refCount == 0 then [buf] + old(free) else old(free)
    {
      hide HashTable.Valid;
      buf.refCount := buf.refCount - 1;
      if buf.refCount == 0 {
        free := [buf] + free;
      }
    }
  }

  /** All buffers that are left are the old ones, and only unreferenced ones are gone. */
  ghost predicate Evicted(m: map<nat, Buf>, m': map<nat, Buf>)
    reads m.Values
  {
    && (forall k :: k in m' ==> k in m && m'[k] == m[k])
    && (forall k :: k in m && m[k].refCount > 0 ==> k in m')
  }

  lemma EvictedNone(m: map<nat, Buf>)
    ensures Evicted(m, m)
  {
  }

  lemma EvictedThen(m: map<nat, Buf>, m': map<nat, Buf>, m'': map<nat, Buf>)
    requires Evicted(m, m') && Evicted(m', m'')
    ensures Evicted(m, m'')
  {
  }

  /** Whatever is cached now was cached before, except perhaps the block just asked for. */
  lemma NewValues(m: map<nat, Buf>, m': map<nat, Buf>, key: nat)
    requires m' == m || Evicted(m, m' - {key})
    ensures forall b :: b in m'.Values ==> b in m.Values || (key in m' && b == m'[key])
  {
    forall b | b in m'.Values
      ensures b in m.Values || (key in m' && b == m'[key])
    {
      var k :| k in m' && m'[k] == b;
      assert k == key || k in m' - {key};
    }
  }

  /** The list without its element at `i`. */
  function Without<T>(s: seq<T>, i: nat): seq<T>
    requires i < |s|
  {
    s[..i] + s[i + 1..]
  }

  lemma RemoveAt<T>(s: seq<T>, i: nat)
    requires i < |s| && forall a, b :: 0 <= a < b < |s| ==> s[a] != s[b]
    ensures var r := Without(s, i);
            (forall a, b :: 0 <= a < b < |r| ==> r[a] != r[b]) && forall x :: x in r <==> x in s && x != s[i]
  {
  }

  lemma EvictKeepsCache(m: map<nat, Buf>, free: seq<Buf>, disk: Disk)
    requires CacheOk(m, free, disk) && free != []
    ensures var key := free[|free| - 1].key;
            key in m && CacheOk(m - {key}, free[..|free| - 1], disk) && Evicted(m, m - {key})
  {
    var last := |free| - 1;
    var victim := free[last];
    var m' := m - {victim.key};
    var free' := free[..last];
    assert victim in free;
    RemoveAt(free, last);
    assert free' == free[..last] + free[last + 1..];
  }

  lemma EnterKeepsCache(m: map<nat, Buf>, free: seq<Buf>, disk: Disk, buf: Buf)
    requires CacheOk(m, free, disk) && buf.key !in m && BufOk(buf, disk) && buf.refCount > 0
    ensures CacheOk(m[buf.key := buf], free, disk)
  {
  }
}
