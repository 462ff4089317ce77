/**
  The two-level page tables of src/kernel/memory/page.c (32-bit paging, section 4.3 of the
  Intel SDM volume 3A), over frames from the frame allocator.  The last entry of the
  directory names the directory itself, so that the last four megabytes of the address space
  are a window on the tables, through which the source reaches them.
*/
module Paging {
  import opened Common
  import opened Pmm

  const NUM_OF_ENTRIES: nat := 1024
  const PAGE_MEMORY: nat := 0x40_0000   // what one table maps
  const FLAGS: nat := 7                 // PRESENT | READ_WRITE | USER
  const RECURSIVE: nat := 1023          // the directory's entry for itself
  const WINDOW: nat := 0xFFC0_0000      // where the window on the tables begins

  type Table = t: seq<nat> | |t| == NUM_OF_ENTRIES witness seq(NUM_OF_ENTRIES, _ => 0)

  function ZeroTable(): Table {
    seq(NUM_OF_ENTRIES, _ => 0)
  }

  /** The directory, the number of its frame, and the frames that hold page tables. */
  datatype Space = Space(pd: Table, dir: nat, frames: map<nat, Table>)

  function PdIndex(addr: nat): (i: nat)
    ensures addr < TWO32 ==> i < NUM_OF_ENTRIES
    ensures addr < WINDOW <==> i < RECURSIVE
  {
    addr / PAGE_MEMORY
  }

  function PtIndex(addr: nat): (i: nat)
    ensures i < NUM_OF_ENTRIES
  {
    addr / PAGE_FRAME_SIZE % NUM_OF_ENTRIES
  }

  predicate Present(entry: nat) {
    entry % 2 == 1
  }

  function FrameOf(entry: nat): nat {
    entry / PAGE_FRAME_SIZE
  }

  /** `page | flags`: the three flag bits set, the rest of the low bits taken from the address. */
  function EntryFor(page: nat): nat {
    page - page % 8 + FLAGS
  }

  lemma EntryBits(page: nat)
    ensures Present(EntryFor(page)) && FrameOf(EntryFor(page)) == page / PAGE_FRAME_SIZE
  {
    var q := page / 8;
    assert EntryFor(page) == 8 * q + 7;
    assert page / PAGE_FRAME_SIZE == q / 512 == (8 * q + 7) / PAGE_FRAME_SIZE;
  }

  /** The page is present, writable and for user mode; a page address sets no other bit below the frame. */
  lemma EntryFlags(page: nat)
    ensures EntryFor(page) % 8 == 1 + 2 + 4
    ensures page % PAGE_FRAME_SIZE == 0 ==> EntryFor(page) == page + 1 + 2 + 4
  {
    PageIsAligned(page);
    LowBits(page / 8);
    assert page == 8 * (page / 8) + page % 8;
  }

  lemma LowBits(q: nat)
    ensures (8 * q + 7) % 8 == 7
  {
  }

  lemma PageIsAligned(page: nat)
    ensures page % PAGE_FRAME_SIZE == 0 ==> page % 8 == 0
  {
    var q := page / PAGE_FRAME_SIZE;
    assert page == PAGE_FRAME_SIZE * q + page % PAGE_FRAME_SIZE;
    assert PAGE_FRAME_SIZE * q == 8 * (512 * q);
  }

  /** What the frame holds, read as a table. */
  function InFrame(s: Space, f: nat): Option<Table> {
    if f == s.dir then Some(s.pd) else if f in s.frames then Some(s.frames[f]) else None
  }

  /** The table behind directory entry `i`, if it is present. */
  function TableAt(s: Space, i: nat): Option<Table>
    requires i < NUM_OF_ENTRIES
  {
    if Present(s.pd[i]) then InFrame(s, FrameOf(s.pd[i])) else None
  }

  /** The physical address that the hardware would find, if both entries are present. */
  function Translate(s: Space, addr: nat): Option<nat>
    requires addr < TWO32
  {
    var t := TableAt(s, PdIndex(addr));
    if t.Some? && Present(t.value[PtIndex(addr)])
    then Some(FrameOf(t.value[PtIndex(addr)]) * PAGE_FRAME_SIZE + addr % PAGE_FRAME_SIZE)
    else None
  }

  // ---------- The invariant ----------

  /** A present entry names a table in a frame that is not free to be handed out. */
  ghost predicate EntryOk(s: Space, free: set<nat>, i: nat)
    requires i < NUM_OF_ENTRIES
  {
    Present(s.pd[i]) ==> TableAt(s, i).Some? && FrameOf(s.pd[i]) !in free
  }

  /** No two present entries name the same frame, and the last one names the directory. */
  ghost predicate SpaceOk(s: Space, free: set<nat>) {
    && (forall i :: 0 <= i < NUM_OF_ENTRIES ==> EntryOk(s, free, i))
    && (forall i, j :: 0 <= i < j < NUM_OF_ENTRIES && Present(s.pd[i]) && Present(s.pd[j]) ==>
          FrameOf(s.pd[i]) != FrameOf(s.pd[j]))
    && Present(s.pd[RECURSIVE]) && FrameOf(s.pd[RECURSIVE]) == s.dir
  }

  /** The window shows the directory, and no other entry does. */
  lemma WindowIsDirectory(s: Space, free: set<nat>, i: nat)
    requires SpaceOk(s, free) && i < NUM_OF_ENTRIES
    ensures TableAt(s, RECURSIVE) == Some(s.pd) && s.dir !in free
    ensures i != RECURSIVE && Present(s.pd[i]) ==> FrameOf(s.pd[i]) != s.dir && FrameOf(s.pd[i]) in s.frames
  {
    assert EntryOk(s, free, RECURSIVE) && EntryOk(s, free, i);
  }

  /** Every table that was there still is, and every mapped address still leads to the same place. */
  ghost predicate Extends(s: Space, s': Space) {
    && (forall k :: 0 <= k < NUM_OF_ENTRIES && TableAt(s, k).Some? ==> TableAt(s', k).Some?)
    && (forall a :: 0 <= a < TWO32 && Translate(s, a).Some? ==> Translate(s', a) == Translate(s, a))
  }

  /** Below the window nothing changed. */
  ghost predicate SameBelow(s: Space, s': Space) {
    forall a :: 0 <= a < WINDOW ==> Translate(s', a) == Translate(s, a)
  }

  /** The directory with a table of the given contents in frame `f` behind entry `i`. */
  function AddTable(s: Space, i: nat, f: nat, t: Table): Space
    requires i < NUM_OF_ENTRIES
  {
    s.(pd := s.pd[i := EntryFor(f * PAGE_FRAME_SIZE)], frames := s.frames[f := t])
  }

  /** The table behind entry `i`, which is not the window, with one entry rewritten. */
  function SetEntry(s: Space, i: nat, j: nat, entry: nat): Space
    requires i < NUM_OF_ENTRIES && j < NUM_OF_ENTRIES && FrameOf(s.pd[i]) in s.frames
  {
    s.(frames := s.frames[FrameOf(s.pd[i]) := s.frames[FrameOf(s.pd[i])][j := entry]])
  }

  /** A table in a free frame disturbs no other table but shows up in the window. */
  lemma AddTableTables(s: Space, free: set<nat>, i: nat, f: nat, t: Table, k: nat)
    requires SpaceOk(s, free) && i < NUM_OF_ENTRIES && !Present(s.pd[i]) && f in free && k < NUM_OF_ENTRIES
    ensures TableAt(AddTable(s, i, f, t), k) ==
            if k == i then Some(t)
            else if k == RECURSIVE then Some(s.pd[i := EntryFor(f * PAGE_FRAME_SIZE)])
            else TableAt(s, k)
  {
    EntryBits(f * PAGE_FRAME_SIZE);
    WindowIsDirectory(s, free, k);
    assert EntryOk(s, free, k);
  }

  lemma AddTableOk(s: Space, free: set<nat>, i: nat, f: nat, t: Table)
    requires SpaceOk(s, free) && i < NUM_OF_ENTRIES && !Present(s.pd[i]) && f in free
    ensures SpaceOk(AddTable(s, i, f, t), free - {f})
  {
    EntryBits(f * PAGE_FRAME_SIZE);
    forall k | 0 <= k < NUM_OF_ENTRIES
      ensures EntryOk(AddTable(s, i, f, t), free - {f}, k) && EntryOk(s, free, k)
    {
      assert EntryOk(s, free, k);
      AddTableTables(s, free, i, f, t, k);
    }
    assert forall k :: 0 <= k < NUM_OF_ENTRIES && Present(s.pd[k]) && EntryOk(s, free, k) ==> FrameOf(s.pd[k]) != f;
    assert i != RECURSIVE;
  }

  /** A new table in a free frame moves no address, whatever the frame contained. */
  lemma AddTableExtends(s: Space, free: set<nat>, i: nat, f: nat, t: Table)
    requires SpaceOk(s, free) && i < NUM_OF_ENTRIES && !Present(s.pd[i]) && f in free
    ensures Extends(s, AddTable(s, i, f, t))
    ensures t == ZeroTable() ==> SameBelow(s, AddTable(s, i, f, t))
  {
    WindowIsDirectory(s, free, i);
    forall k | 0 <= k < NUM_OF_ENTRIES
      ensures TableAt(AddTable(s, i, f, t), k) ==
              if k == i then Some(t)
              else if k == RECURSIVE then Some(s.pd[i := EntryFor(f * PAGE_FRAME_SIZE)])
              else TableAt(s, k)
    {
      AddTableTables(s, free, i, f, t, k);
    }
    hide AddTable, TableAt, SpaceOk;
  }

  lemma SetEntryTables(s: Space, free: set<nat>, i: nat, j: nat, entry: nat, k: nat)
    requires SpaceOk(s, free) && i < RECURSIVE && j < NUM_OF_ENTRIES && Present(s.pd[i]) && k < NUM_OF_ENTRIES
    ensures TableAt(s, i).Some? && FrameOf(s.pd[i]) in s.frames
    ensures TableAt(SetEntry(s, i, j, entry), k) ==
            if k == i then Some(TableAt(s, i).value[j := entry]) else TableAt(s, k)
  {
    WindowIsDirectory(s, free, i);
  }

  lemma SetEntryOk(s: Space, free: set<nat>, i: nat, j: nat, entry: nat)
    requires SpaceOk(s, free) && i < RECURSIVE && j < NUM_OF_ENTRIES && Present(s.pd[i])
    ensures FrameOf(s.pd[i]) in s.frames && SpaceOk(SetEntry(s, i, j, entry), free)
  {
    WindowIsDirectory(s, free, i);
    forall k | 0 <= k < NUM_OF_ENTRIES
      ensures EntryOk(SetEntry(s, i, j, entry), free, k)
    {
      assert EntryOk(s, free, k);
      SetEntryTables(s, free, i, j, entry, k);
    }
  }

  /** Filling an entry that was not present leaves every existing translation alone. */
  lemma SetEntryExtends(s: Space, free: set<nat>, i: nat, j: nat, entry: nat)
    requires SpaceOk(s, free) && i < RECURSIVE && j < NUM_OF_ENTRIES && Present(s.pd[i])
    requires TableAt(s, i).Some? && !Present(TableAt(s, i).value[j])
    ensures FrameOf(s.pd[i]) in s.frames && Extends(s, SetEntry(s, i, j, entry))
  {
    WindowIsDirectory(s, free, i);
    forall k | 0 <= k < NUM_OF_ENTRIES
      ensures TableAt(SetEntry(s, i, j, entry), k) ==
              if k == i then Some(TableAt(s, i).value[j := entry]) else TableAt(s, k)
    {
      SetEntryTables(s, free, i, j, entry, k);
    }
    hide SetEntry, TableAt, SpaceOk;
  }

  // ---------- Identity mapping ----------

  /** The table after page_identity_pte wrote entries from `lo` up to, but not including, `stop`. */
  function Identity(t: Table, lo: nat, stop: nat, addr: nat): Table {
    seq(NUM_OF_ENTRIES, j requires 0 <= j < NUM_OF_ENTRIES => IdentityAt(t, lo, stop, addr, j))
  }

  function IdentityAt(t: Table, lo: nat, stop: nat, addr: nat, j: nat): nat
    requires j < NUM_OF_ENTRIES
  {
    if lo <= j < stop then EntryFor(addr + (j - lo) * PAGE_FRAME_SIZE) else t[j]
  }

  /** Page number and table index of an address, put together. */
  lemma Indexes(x: nat)
    ensures x / PAGE_FRAME_SIZE == PdIndex(x) * NUM_OF_ENTRIES + PtIndex(x)
  {
  }

  /** The entry written for an address of the same table names the address's own frame. */
  lemma IdentityEntry(t: Table, addr: nat, stop: nat, x: nat)
    requires PdIndex(x) == PdIndex(addr) && PtIndex(addr) <= PtIndex(x) < stop
    ensures var e := Identity(t, PtIndex(addr), stop, addr)[PtIndex(x)];
            Present(e) && FrameOf(e) == x / PAGE_FRAME_SIZE
  {
    var k := PtIndex(x) - PtIndex(addr);
    EntryBits(addr + k * PAGE_FRAME_SIZE);
    Indexes(x);
    Indexes(addr);
    assert (addr + k * PAGE_FRAME_SIZE) / PAGE_FRAME_SIZE == addr / PAGE_FRAME_SIZE + k;
  }

  /** Entry by entry, the loop of page_identity_pte builds the identity table. */
  lemma IdentityNext(t: Table, lo: nat, j: nat, addr: nat)
    requires lo <= j < NUM_OF_ENTRIES
    ensures Identity(t, lo, j + 1, addr) == Identity(t, lo, j, addr)[j := EntryFor(addr + (j - lo) * PAGE_FRAME_SIZE)]
  {
  }

  lemma IdentityNone(t: Table, lo: nat, stop: nat, addr: nat)
    requires stop <= lo
    ensures Identity(t, lo, stop, addr) == t
  {
  }

  /** What one turn of page_identity_map hands to page_identity_pte: at most PAGE_MEMORY less the page offset. */
  function Piece(addr: nat, size: nat): (piece: nat)
    ensures piece <= size && (size > 0 ==> piece > 0)
  {
    var maxSize := PAGE_MEMORY - addr % PAGE_FRAME_SIZE;
    if size > maxSize then maxSize else size
  }

  /** A turn writes the entry of `x`: entries from addr's to that of addr + piece, in the table of addr. */
  predicate TurnWrites(addr: nat, piece: nat, x: nat) {
    PdIndex(x) == PdIndex(addr) && PtIndex(addr) <= PtIndex(x) <= PtIndex(addr + piece)
  }

  /** Some turn of the loop of page_identity_map writes the entry of `x`. */
  predicate Written(addr: nat, size: nat, x: nat)
    decreases size
  {
    size > 0 &&
    (TurnWrites(addr, Piece(addr, size), x) || Written(addr + Piece(addr, size), size - Piece(addr, size), x))
  }

  /** A piece of full size ends at the same entry of the next table. */
  lemma FullPiece(addr: nat)
    ensures var next := addr + (PAGE_MEMORY - addr % PAGE_FRAME_SIZE);
            next % PAGE_FRAME_SIZE == 0 && PtIndex(next) == PtIndex(addr) && PdIndex(next) == PdIndex(addr) + 1
  {
    Indexes(addr);
    var page := addr / PAGE_FRAME_SIZE;
    assert addr + (PAGE_MEMORY - addr % PAGE_FRAME_SIZE) == (page + NUM_OF_ENTRIES) * PAGE_FRAME_SIZE;
  }

  /** Later turns stay at or behind the entry, and behind the table, that they start from. */
  lemma {:induction false} WrittenBehind(addr: nat, size: nat, x: nat)
    requires Written(addr, size, x)
    ensures PdIndex(x) >= PdIndex(addr) && PtIndex(x) >= PtIndex(addr)
    decreases size
  {
    var piece := Piece(addr, size);
    if TurnWrites(addr, piece, x) {
    } else {
      FullPiece(addr);
      WrittenBehind(addr + piece, size - piece, x);
    }
  }

  lemma NextPage(addr: nat)
    ensures var x := addr + PAGE_FRAME_SIZE;
            if PtIndex(addr) == NUM_OF_ENTRIES - 1
            then PdIndex(x) == PdIndex(addr) + 1 && PtIndex(x) == 0
            else PdIndex(x) == PdIndex(addr) && PtIndex(x) == PtIndex(addr) + 1
  {
    Indexes(addr);
    Indexes(addr + PAGE_FRAME_SIZE);
  }

  /** After a piece of full size the second page of the range is never mapped. */
  lemma SecondPageSkipped(addr: nat, size: nat)
    requires size >= PAGE_MEMORY - addr % PAGE_FRAME_SIZE
    ensures !Written(addr, size, addr + PAGE_FRAME_SIZE)
  {
    var x := addr + PAGE_FRAME_SIZE;
    var piece := PAGE_MEMORY - addr % PAGE_FRAME_SIZE;
    FullPiece(addr);
    NextPage(addr);
    if Written(addr + piece, size - piece, x) {
      WrittenBehind(addr + piece, size - piece, x);
    }
  }

  /** A shorter piece that ends in the next table writes nothing at all. */
  lemma CrossingWritesNothing(addr: nat, size: nat)
    requires 0 < size < PAGE_MEMORY - addr % PAGE_FRAME_SIZE && PdIndex(addr + size) != PdIndex(addr)
    ensures !Written(addr, size, addr)
  {
    Indexes(addr);
    Indexes(addr + size);
    assert (addr + size) / PAGE_FRAME_SIZE < addr / PAGE_FRAME_SIZE + NUM_OF_ENTRIES;
    assert PdIndex(addr + size) == PdIndex(addr) + 1;
  }

  /** Addresses between two of the same table lie in it, between their entries. */
  lemma SameTable(addr: nat, size: nat, x: nat)
    requires PdIndex(addr) == PdIndex(addr + size) && addr <= x <= addr + size
    ensures TurnWrites(addr, size, x) && size < PAGE_MEMORY - addr % PAGE_FRAME_SIZE
  {
    Indexes(addr);
    Indexes(x);
    Indexes(addr + size);
  }

  /**
    page_identity_map writes the entry of every address of the range if and only if the
    range, its end included, lies in one table.
  */
  lemma IdentityCoversIff(addr: nat, size: nat)
    requires size > 0
    ensures (forall x :: addr <= x < addr + size ==> Written(addr, size, x)) <==> PdIndex(addr) == PdIndex(addr + size)
  {
    if PdIndex(addr) == PdIndex(addr + size) {
      forall x | addr <= x < addr + size
        ensures Written(addr, size, x)
      {
        SameTable(addr, size, x);
      }
    } else if size < PAGE_MEMORY - addr % PAGE_FRAME_SIZE {
      CrossingWritesNothing(addr, size);
    } else {
      SecondPageSkipped(addr, size);
    }
  }

  /** Five megabytes from address 0: of the first table only the first page is mapped. */
  lemma FiveMegabytes()
    ensures Written(0, 0x50_0000, 0) && !Written(0, 0x50_0000, 0x1000)
  {
    SecondPageSkipped(0, 0x50_0000);
  }

  /** One turn, in a table below the window: the addresses whose entries it writes map to themselves. */
  lemma TurnMaps(s: Space, s': Space, addr: nat, piece: nat)
    requires addr < WINDOW && TableAt(s, PdIndex(addr)).Some?
    requires TableAt(s', PdIndex(addr)) ==
             Some(Identity(TableAt(s, PdIndex(addr)).value, PtIndex(addr), PtIndex(addr + piece) + 1, addr))
    requires forall k :: 0 <= k < NUM_OF_ENTRIES && k != PdIndex(addr) ==> TableAt(s', k) == TableAt(s, k)
    ensures forall x: nat :: x < TWO32 ==>
              Translate(s', x) == if TurnWrites(addr, piece, x) then Some(x) else Translate(s, x)
  {
    var i, stop := PdIndex(addr), PtIndex(addr + piece) + 1;
    var t := TableAt(s, i).value;
    hide TableAt;
    forall x: nat | x < TWO32
      ensures Translate(s', x) == if TurnWrites(addr, piece, x) then Some(x) else Translate(s, x)
    {
      if TurnWrites(addr, piece, x) {
        IdentityEntry(t, addr, stop, x);
      }
    }
  }

  /** page_identity_pte as a function of the whole space; in the window it rewrites the directory. */
  function IdentityIn(s: Space, addr: nat, size: nat): Space
    requires addr < TWO32 && TableAt(s, PdIndex(addr)).Some?
  {
    var f := FrameOf(s.pd[PdIndex(addr)]);
    var t := Identity(TableAt(s, PdIndex(addr)).value, PtIndex(addr), PtIndex(addr + size) + 1, addr);
    if f == s.dir then s.(pd := t) else s.(frames := s.frames[f := t])
  }

  /**
    Identity mapping a range of one table keeps the page tables consistent if and only if the
    table is not the window, where the directory itself would be rewritten.  The window's own
    page numbers are no memory that tables could be in.
  */
  lemma IdentityKeepsTablesIff(s: Space, free: set<nat>, addr: nat, size: nat)
    requires SpaceOk(s, free) && addr + size < TWO32 && PdIndex(addr) == PdIndex(addr + size)
    requires s.dir < FrameOf(WINDOW) && forall f :: f in s.frames ==> f < FrameOf(WINDOW)
    requires TableAt(s, PdIndex(addr)).Some?
    ensures SpaceOk(IdentityIn(s, addr, size), free) <==> addr < WINDOW
  {
    if addr < WINDOW {
      IdentityBelowOk(s, free, addr, size);
    } else {
      WindowEntryLost(s, free, addr, size);
      assert !EntryOk(IdentityIn(s, addr, size), free, PtIndex(addr));
    }
  }

  lemma IdentityBelowOk(s: Space, free: set<nat>, addr: nat, size: nat)
    requires SpaceOk(s, free) && addr < WINDOW && TableAt(s, PdIndex(addr)).Some?
    ensures SpaceOk(IdentityIn(s, addr, size), free)
  {
    WindowIsDirectory(s, free, PdIndex(addr));
    forall k | 0 <= k < NUM_OF_ENTRIES
      ensures EntryOk(IdentityIn(s, addr, size), free, k)
    {
      assert EntryOk(s, free, k);
    }
  }

  /** In the window, the directory entry rewritten first no longer names a table: four megabytes are lost. */
  lemma WindowEntryLost(s: Space, free: set<nat>, addr: nat, size: nat)
    requires SpaceOk(s, free) && WINDOW <= addr && addr + size < TWO32
    requires s.dir < FrameOf(WINDOW) && forall f :: f in s.frames ==> f < FrameOf(WINDOW)
    ensures TableAt(s, PdIndex(addr)).Some? && TableAt(IdentityIn(s, addr, size), PtIndex(addr)).None?
    ensures Present(IdentityIn(s, addr, size).pd[PtIndex(addr)])
    ensures forall x: nat :: x < TWO32 && PdIndex(x) == PtIndex(addr) ==> Translate(IdentityIn(s, addr, size), x).None?
  {
    WindowIsDirectory(s, free, RECURSIVE);
    assert PdIndex(addr) == RECURSIVE == PdIndex(addr + size);
    SameTable(addr, size, addr);
    IdentityEntry(s.pd, addr, PtIndex(addr + size) + 1, addr);
    assert FrameOf(WINDOW) <= addr / PAGE_FRAME_SIZE;
  }

  // ---------- Frames in demand ----------

  /** How many frames page_get_pt_entry needs. */
  ghost function Lacking(s: Space, addr: nat, alloc: bool): nat
    requires addr < TWO32
  {
    (if TableAt(s, PdIndex(addr)).None? then 1 else 0) + (if alloc && Translate(s, addr).None? then 1 else 0)
  }

  /** Enough frames for all the addresses, each taken by itself. */
  ghost function Demand(s: Space, addrs: seq<nat>): nat
    requires forall k :: 0 <= k < |addrs| ==> addrs[k] < TWO32
  {
    if addrs == [] then 0 else Lacking(s, addrs[0], true) + Demand(s, addrs[1..])
  }

  lemma {:induction false} DemandShrinks(s: Space, s': Space, addrs: seq<nat>)
    requires (forall k :: 0 <= k < |addrs| ==> addrs[k] < TWO32) && Extends(s, s')
    ensures Demand(s', addrs) <= Demand(s, addrs)
  {
    if addrs == [] {
    } else {
      DemandShrinks(s, s', addrs[1..]);
    }
  }

  /** How many tables page_identity_map needs. */
  ghost function Missing(s: Space, addr: nat, size: nat): nat
    requires addr + size <= WINDOW
    decreases size
  {
    if size == 0 then 0
    else
      (if TableAt(s, PdIndex(addr)).None? then 1 else 0) +
      Missing(s, addr + Piece(addr, size), size - Piece(addr, size))
  }

  lemma {:induction false} MissingShrinks(s: Space, s': Space, addr: nat, size: nat)
    requires addr + size <= WINDOW
    requires forall k :: 0 <= k < NUM_OF_ENTRIES && TableAt(s, k).Some? ==> TableAt(s', k).Some?
    ensures Missing(s', addr, size) <= Missing(s, addr, size)
    decreases size
  {
    if size == 0 {
    } else {
      MissingShrinks(s, s', addr + Piece(addr, size), size - Piece(addr, size));
    }
  }

  // ---------- The address space ----------

  class AddressSpace {
    var space: Space
    const pmm: FrameAllocator
    ghost var installed: seq<nat>   // frames of tables and pages, in the order they were installed

    ghost predicate Valid()
      reads this, pmm, pmm.bitmap
    {
      && pmm.Valid() && pmm.lastAlloc < pmm.pages
      && SpaceOk(space, pmm.Free())
      && Distinct(installed)
      && (forall f :: f in installed ==> f in pmm.held)
    }

    constructor (space: Space, pmm: FrameAllocator)
      requires pmm.Valid() && pmm.lastAlloc < pmm.pages && SpaceOk(space, pmm.Free())
      ensures Valid() && this.space == space && this.pmm == pmm && installed == []
    {
      this.space := space;
      this.pmm := pmm;
      installed := [];
    }

    /** One frame from the allocator: it was free, so it is none of those in use. */
    method NewFrame() returns (f: nat)
      requires Valid() && pmm.Free() != {}
      modifies this`installed, pmm, pmm.bitmap
      ensures pmm.Valid() && pmm.lastAlloc < pmm.pages && f in old(pmm.Free()) && pmm.Free() == old(pmm.Free()) - {f}
      ensures installed == old(installed) + [f] && f !in old(installed) && Distinct(installed)
      ensures forall g :: g in installed ==> g in pmm.held
    {
      var addr := pmm.Alloc();
      f := addr / PAGE_FRAME_SIZE;
      installed := installed + [f];
    }

    /** page_get_pt: false is the NULL returned for a missing table when none may be allocated. */
    method GetPt(addr: nat, alloc: bool) returns (ok: bool)
      requires Valid() && addr < TWO32 && (alloc && TableAt(space, PdIndex(addr)).None? ==> pmm.Free() != {})
      modifies this`space, this`installed, pmm, pmm.bitmap
      ensures Valid() && Extends(old(space), space) && SameBelow(old(space), space)
      ensures ok <==> alloc || TableAt(old(space), PdIndex(addr)).Some?
      ensures ok ==> TableAt(space, PdIndex(addr)).Some?
      ensures Translate(space, addr) == Translate(old(space), addr)
      ensures if ok && TableAt(old(space), PdIndex(addr)).None?
              then exists f :: Took(old(pmm.Free()), pmm.Free(), old(installed), installed, f)
              else space == old(space) && pmm.Free() == old(pmm.Free()) && installed == old(installed)
    {
      var i := PdIndex(addr);
      assert EntryOk(space, pmm.Free(), i);
      hide SpaceOk;
      if !Present(space.pd[i]) {
        if !alloc {
          return false;
        }
        WindowIsDirectory(space, pmm.Free(), i);
        ghost var free, s := pmm.Free(), space;
        var f := NewFrame();
        AddTableOk(s, free, i, f, ZeroTable());
        AddTableExtends(s, free, i, f, ZeroTable());
        AddTableTables(s, free, i, f, ZeroTable(), i);
        space := AddTable(space, i, f, ZeroTable());
        assert Took(free, pmm.Free(), old(installed), installed, f);
      }
      return true;
    }

    /** A missing page below the window: a frame is installed for it. */
    method InstallPage(addr: nat) returns (e: nat)
      requires Valid() && addr < WINDOW && TableAt(space, PdIndex(addr)).Some? && Translate(space, addr).None?
      requires pmm.Free() != {}
      modifies this`space, this`installed, pmm, pmm.bitmap
      ensures Valid() && Extends(old(space), space)
      ensures Translate(space, addr) == Some(FrameOf(e) * PAGE_FRAME_SIZE + addr % PAGE_FRAME_SIZE)
      ensures Took(old(pmm.Free()), pmm.Free(), old(installed), installed, FrameOf(e))
    {
      var i, j := PdIndex(addr), PtIndex(addr);
      ghost var free, s := pmm.Free(), space;
      WindowIsDirectory(space, free, i);
      hide SpaceOk, Extends, FrameAllocator.Valid, FrameAllocator.Free, InFrame;
      var f := NewFrame();
      EntryBits(f * PAGE_FRAME_SIZE);
      e := EntryFor(f * PAGE_FRAME_SIZE);
      SetEntryExtends(s, free, i, j, e);
      SetEntryTables(s, free, i, j, e, i);
      SetEntryOk(s, free, i, j, e);
      FewerFree(SetEntry(s, i, j, e), free, f);
      space := SetEntry(space, i, j, e);
    }

    /** A missing page of the window is a missing table; its frame is not cleared, as `junk` says. */
    method InstallInWindow(addr: nat, junk: Table) returns (e: nat)
      requires Valid() && WINDOW <= addr < TWO32 && Translate(space, addr).None?
      requires pmm.Free() != {}
      modifies this`space, this`installed, pmm, pmm.bitmap
      ensures Valid() && Extends(old(space), space)
      ensures Translate(space, addr) == Some(FrameOf(e) * PAGE_FRAME_SIZE + addr % PAGE_FRAME_SIZE)
      ensures Took(old(pmm.Free()), pmm.Free(), old(installed), installed, FrameOf(e))
    {
      var j := PtIndex(addr);
      ghost var free, s := pmm.Free(), space;
      WindowIsDirectory(space, free, RECURSIVE);
      assert PdIndex(addr) == RECURSIVE;
      hide SpaceOk, Extends, FrameAllocator.Valid, FrameAllocator.Free, InFrame;
      var f := NewFrame();
      EntryBits(f * PAGE_FRAME_SIZE);
      e := EntryFor(f * PAGE_FRAME_SIZE);
      AddTableOk(s, free, j, f, junk);
      AddTableExtends(s, free, j, f, junk);
      AddTableTables(s, free, j, f, junk, RECURSIVE);
      space := AddTable(space, j, f, junk);
    }

    /** The table is there: look the page up, and install a frame if it is missing and may be allocated. */
    method EntryIn(addr: nat, alloc: bool) returns (entry: Option<nat>)
      requires Valid() && addr < TWO32 && TableAt(space, PdIndex(addr)).Some?
      requires alloc && Translate(space, addr).None? ==> pmm.Free() != {}
      modifies this`space, this`installed, pmm, pmm.bitmap
      ensures Valid() && Extends(old(space), space)
      ensures entry.Some? <==> alloc || Translate(old(space), addr).Some?
      ensures entry.Some? ==>
                Translate(space, addr) == Some(FrameOf(entry.value) * PAGE_FRAME_SIZE + addr % PAGE_FRAME_SIZE)
      ensures if alloc && Translate(old(space), addr).None?
              then Took(old(pmm.Free()), pmm.Free(), old(installed), installed, FrameOf(entry.value))
              else space == old(space) && installed == old(installed) && pmm.Free() == old(pmm.Free())
    {
      hide SpaceOk;
      var e := TableAt(space, PdIndex(addr)).value[PtIndex(addr)];
      if !Present(e) {
        if !alloc {
          return None;
        }
        if addr < WINDOW {
          e := InstallPage(addr);
        } else {
          var junk: Table := *;
          e := InstallInWindow(addr, junk);
        }
      }
      return Some(e);
    }

    /**
      page_get_pt_entry: the entry for the address; None is NULL, for a missing page without
      allocation.  A missing table is allocated in any case.
    */
    method GetPtEntry(addr: nat, alloc: bool) returns (entry: Option<nat>)
      requires Valid() && addr < TWO32 && |pmm.Free()| >= Lacking(space, addr, alloc)
      modifies this`space, this`installed, pmm, pmm.bitmap
      ensures Valid() && Extends(old(space), space) && old(installed) <= installed
      ensures entry.Some? <==> alloc || Translate(old(space), addr).Some?
      ensures entry.Some? ==>
                Translate(space, addr) == Some(FrameOf(entry.value) * PAGE_FRAME_SIZE + addr % PAGE_FRAME_SIZE)
      ensures alloc && Translate(old(space), addr).None? ==>
                FrameOf(entry.value) in old(pmm.Free()) && FrameOf(entry.value) !in old(installed) &&
                FrameOf(entry.value) in installed
      ensures |pmm.Free()| == |old(pmm.Free())| - Lacking(old(space), addr, alloc)
    {
      hide FrameAllocator.Valid, FrameAllocator.Free, SpaceOk, Extends, SameBelow, Translate, TableAt;
      var ok := GetPt(addr, true);
      ghost var mid := space;
      TookCounts(old(pmm.Free()), pmm.Free(), old(installed), installed);
      ghost var free, had := pmm.Free(), installed;
      entry := EntryIn(addr, alloc);
      TookCounts(free, pmm.Free(), had, installed);
      ExtendsThen(old(space), mid, space, addr);
    }

    /**
      Any sequence of allocating lookups while frames remain: everything asked for is mapped,
      nothing mapped earlier moves, and all frames installed are different.
    */
    method MapAll(addrs: seq<nat>)
      requires Valid() && (forall k :: 0 <= k < |addrs| ==> addrs[k] < TWO32) && |pmm.Free()| >= Demand(space, addrs)
      modifies this`space, this`installed, pmm, pmm.bitmap
      ensures Valid() && Extends(old(space), space) && old(installed) <= installed && Distinct(installed)
      ensures AllMapped(space, addrs)
    {
      hide FrameAllocator.Valid, FrameAllocator.Free, SpaceOk, Extends, Translate, TableAt, AllMapped;
      ExtendsSelf(space);
      NoneMapped(space);
      var i := 0;
      while i < |addrs|
        invariant i <= |addrs| && Valid() && Extends(old(space), space) && old(installed) <= installed
        invariant |pmm.Free()| >= Demand(space, addrs[i..])
        invariant AllMapped(space, addrs[..i])
      {
        ghost var before := space;
        assert addrs[i..][1..] == addrs[i + 1..];
        var entry := GetPtEntry(addrs[i], true);
        DemandShrinks(before, space, addrs[i + 1..]);
        ExtendsThen(old(space), before, space, addrs[i]);
        OneMoreMapped(before, space, addrs[..i], addrs[i]);
        assert addrs[..i] + [addrs[i]] == addrs[..i + 1];
        i := i + 1;
      }
      assert addrs[..i] == addrs;
    }

    /** page_get_phys_addr: what the tables say; None where the source follows a NULL entry. */
    method GetPhysAddr(addr: nat) returns (phys: Option<nat>)
      requires Valid() && addr < TWO32 && |pmm.Free()| >= Lacking(space, addr, false)
      modifies this`space, this`installed, pmm, pmm.bitmap
      ensures Valid() && Extends(old(space), space) && phys == Translate(old(space), addr)
    {
      hide SpaceOk, TableAt;
      var entry := GetPtEntry(addr, false);
      if entry.None? {
        return None;
      }
      return Some(FrameOf(entry.value) * PAGE_FRAME_SIZE + addr % PAGE_FRAME_SIZE);
    }

    /** page_identity_pte on the table of `addr`, which has to be present and not the window. */
    method IdentityPte(addr: nat, size: nat)
      requires Valid() && addr < WINDOW && TableAt(space, PdIndex(addr)).Some?
      modifies this`space
      ensures Valid() && TableAt(old(space), PdIndex(addr)).Some?
      ensures TableAt(space, PdIndex(addr)) ==
              Some(Identity(TableAt(old(space), PdIndex(addr)).value, PtIndex(addr), PtIndex(addr + size) + 1, addr))
      ensures forall k :: 0 <= k < NUM_OF_ENTRIES && k != PdIndex(addr) ==> TableAt(space, k) == TableAt(old(space), k)
    {
      hide SpaceOk, FrameAllocator.Valid, FrameAllocator.Free, Identity;
      var i := PdIndex(addr);
      ghost var t := TableAt(space, i).value;
      var lo, last := PtIndex(addr), PtIndex(addr + size);
      var entry, page := lo, addr;
      IdentityNone(t, lo, lo, addr);
      while entry <= last
        invariant lo <= entry && (entry == lo || entry <= last + 1) && Valid() && Present(space.pd[i])
        invariant page == addr + (entry - lo) * PAGE_FRAME_SIZE
        invariant TableAt(space, i) == Some(Identity(t, lo, entry, addr))
        invariant forall k :: 0 <= k < NUM_OF_ENTRIES && k != i ==> TableAt(space, k) == TableAt(old(space), k)
      {
        IdentityNext(t, lo, entry, addr);
        ghost var before := space;
        SetEntryOk(space, pmm.Free(), i, entry, EntryFor(page));
        space := SetEntry(space, i, entry, EntryFor(page));
        forall k | 0 <= k < NUM_OF_ENTRIES
          ensures TableAt(space, k) ==
                  if k == i then Some(TableAt(before, i).value[entry := EntryFor(page)]) else TableAt(before, k)
        {
          SetEntryTables(before, pmm.Free(), i, entry, EntryFor(page), k);
        }
        entry := entry + 1;
        page := page + PAGE_FRAME_SIZE;
      }
      if last + 1 <= lo {
        IdentityNone(t, lo, last + 1, addr);
      }
    }

    /** One turn of page_identity_map: the table is fetched or allocated, and its entries written. */
    method IdentityTurn(addr: nat, piece: nat)
      requires Valid() && addr < WINDOW && (TableAt(space, PdIndex(addr)).None? ==> pmm.Free() != {})
      modifies this`space, this`installed, pmm, pmm.bitmap
      ensures Valid()
      ensures forall k :: 0 <= k < NUM_OF_ENTRIES && TableAt(old(space), k).Some? ==> TableAt(space, k).Some?
      ensures |pmm.Free()| == |old(pmm.Free())| - (if TableAt(old(space), PdIndex(addr)).None? then 1 else 0)
      ensures forall x: nat :: x < WINDOW ==>
                Translate(space, x) == if TurnWrites(addr, piece, x) then Some(x) else Translate(old(space), x)
    {
      hide FrameAllocator.Valid, FrameAllocator.Free, SpaceOk, Translate, TableAt, TurnWrites;
      var ok := GetPt(addr, true);
      TookCounts(old(pmm.Free()), pmm.Free(), old(installed), installed);
      ghost var mid := space;
      IdentityPte(addr, piece);
      TurnMaps(mid, space, addr, piece);
    }

    /**
      page_identity_map below the window: exactly the addresses whose entries its turns write
      translate to themselves, all others as before.  IdentityCoversIff says when those are all
      addresses of the range.
    */
    method IdentityMap(addr: nat, size: nat)
      requires Valid() && addr + size <= WINDOW && |pmm.Free()| >= Missing(space, addr, size)
      modifies this`space, this`installed, pmm, pmm.bitmap
      ensures Valid()
      ensures forall x: nat :: x < WINDOW ==>
                Translate(space, x) == if Written(addr, size, x) then Some(x) else Translate(old(space), x)
      ensures PdIndex(addr) == PdIndex(addr + size) ==>
                forall x: nat :: addr <= x < addr + size ==> Translate(space, x) == Some(x)
    {
      hide FrameAllocator.Valid, FrameAllocator.Free, SpaceOk, Translate, TableAt, TurnWrites, AddressSpace.Valid;
      var at: nat, rest: nat := addr, size;
      while at < addr + size
        invariant at + rest == addr + size && Valid() && |pmm.Free()| >= Missing(space, at, rest)
        invariant forall x :: Written(at, rest, x) ==> Written(addr, size, x)
        invariant forall x: nat :: x < WINDOW && !Written(at, rest, x) ==>
                    Translate(space, x) == if Written(addr, size, x) then Some(x) else Translate(old(space), x)
        decreases rest
      {
        ghost var before := space;
        var maxSize := PAGE_MEMORY - at % PAGE_FRAME_SIZE;
        var pageSize := if rest > maxSize then maxSize else rest;
        IdentityTurn(at, pageSize);
        MissingShrinks(before, space, at + pageSize, rest - pageSize);
        at, rest := at + pageSize, rest - pageSize;
      }
      if size > 0 && PdIndex(addr) == PdIndex(addr + size) {
        IdentityCoversIff(addr, size);
      }
    }
  }

  /** Frame `f`, new to the space, was taken from the free ones. */
  ghost predicate Took(free: set<nat>, free': set<nat>, had: seq<nat>, has: seq<nat>, f: nat) {
    f in free && free' == free - {f} && f !in had && has == had + [f]
  }

  lemma TookCounts(free: set<nat>, free': set<nat>, had: seq<nat>, has: seq<nat>)
    ensures forall f: nat :: Took(free, free', had, has, f) ==>
            |free'| == |free| - 1 && had <= has && f in has && free' <= free
  {
  }

  lemma FewerFree(s: Space, free: set<nat>, f: nat)
    requires SpaceOk(s, free)
    ensures SpaceOk(s, free - {f})
  {
    assert forall i :: 0 <= i < NUM_OF_ENTRIES && EntryOk(s, free, i) ==> EntryOk(s, free - {f}, i);
  }

  ghost predicate AllMapped(s: Space, addrs: seq<nat>) {
    forall k :: 0 <= k < |addrs| ==> addrs[k] < TWO32 && Translate(s, addrs[k]).Some?
  }

  lemma NoneMapped(s: Space)
    ensures AllMapped(s, [])
  {
  }

  lemma OneMoreMapped(s: Space, s': Space, addrs: seq<nat>, a: nat)
    requires AllMapped(s, addrs) && Extends(s, s') && a < TWO32 && Translate(s', a).Some?
    ensures AllMapped(s', addrs + [a])
  {
  }

  lemma ExtendsSelf(s: Space)
    ensures Extends(s, s)
  {
  }

  lemma ExtendsThen(a: Space, b: Space, c: Space, addr: nat)
    requires Extends(a, b) && Extends(b, c) && addr < TWO32
    ensures Extends(a, c) && (Translate(a, addr).Some? ==> Translate(b, addr) == Translate(a, addr))
  {
  }
}
