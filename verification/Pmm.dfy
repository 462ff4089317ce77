/**
  The physical frame allocator of src/kernel/memory/pmm.c: a bitmap in which a set bit is
  an occupied frame, searched by double words and then by bits, going round at the end.
*/
module Pmm {
  import opened Common
  import opened Ring
  import opened Bits

  const BIT32_MAX: nat := 0xFFFF_FFFF

  /** pmm_get_dword: the four bytes of the bitmap that hold page `p`, little endian. */
  function Dword(bitmap: seq<Byte>, p: nat): nat
    requires p / 32 * 4 + 4 <= |bitmap|
  {
    var d := p / 32 * 4;
    (bitmap[d] as int) + 256 * (bitmap[d + 1] as int) + 65536 * (bitmap[d + 2] as int) +
    16777216 * (bitmap[d + 3] as int)
  }

  ghost predicate Full(bitmap: seq<Byte>, n: nat)
    requires n <= 8 * |bitmap|
  {
    forall p :: 0 <= p < n ==> Marked(bitmap, p)
  }

  /** All 32 pages of double word `d` are occupied. */
  ghost predicate FullDword(bitmap: seq<Byte>, d: nat)
    requires d * 4 + 4 <= |bitmap|
  {
    forall p :: 32 * d <= p < 32 * d + 32 ==> Marked(bitmap, p)
  }

  lemma DwordMax(b0: Byte, b1: Byte, b2: Byte, b3: Byte)
    ensures (b0 as int) + 256 * (b1 as int) + 65536 * (b2 as int) + 16777216 * (b3 as int) == BIT32_MAX <==>
            b0 == 255 && b1 == 255 && b2 == 255 && b3 == 255
  {
  }

  /** A byte of the bitmap is 0xFF exactly when its eight pages are occupied. */
  lemma ByteIsFull(bitmap: seq<Byte>, i: nat)
    requires i < |bitmap|
    ensures bitmap[i] == 255 <==> forall p :: 8 * i <= p < 8 * i + 8 ==> Marked(bitmap, p)
  {
    FullByte(bitmap[i]);
    if forall p :: 8 * i <= p < 8 * i + 8 ==> Marked(bitmap, p) {
      forall k | 0 <= k < 8
        ensures BitOf(bitmap[i], k)
      {
        assert Marked(bitmap, 8 * i + k);
      }
    }
  }

  /** Comparing the double word with 2^32 - 1 tells whether any of its 32 pages is free. */
  lemma DwordIsFull(bitmap: seq<Byte>, p: nat)
    requires p / 32 * 4 + 4 <= |bitmap|
    ensures Dword(bitmap, p) == BIT32_MAX <==> FullDword(bitmap, p / 32)
  {
    var d := p / 32 * 4;
    DwordMax(bitmap[d], bitmap[d + 1], bitmap[d + 2], bitmap[d + 3]);
    ByteIsFull(bitmap, d);
    ByteIsFull(bitmap, d + 1);
    ByteIsFull(bitmap, d + 2);
    ByteIsFull(bitmap, d + 3);
  }

  /** Adding 32 modulo the number of pages goes to the same place in the next double word. */
  lemma NextDword(pages: nat, start: nat, p: nat)
    requires start < pages && pages % 32 == 0 && p < pages && p % 32 == start % 32
    ensures var q := (p + 32) % pages;
            q < pages && q % 32 == start % 32 && q / 32 == Next(p / 32, pages / 32) &&
            (q == start <==> q / 32 == start / 32)
  {
    ModWraps(p + 32, pages);
  }

  /** The double words before `d`, counted from `s` round the ring, are all full. */
  ghost predicate Skipped(bitmap: seq<Byte>, dwords: nat, s: nat, d: nat) {
    && s < dwords && d < dwords && dwords * 4 <= |bitmap|
    && forall e :: 0 <= e < dwords && Dist(s, e, dwords) < Dist(s, d, dwords) ==> FullDword(bitmap, e)
  }

  lemma SkipOne(bitmap: seq<Byte>, dwords: nat, s: nat, d: nat)
    requires Skipped(bitmap, dwords, s, d) && FullDword(bitmap, d)
    ensures Next(d, dwords) != s ==> Skipped(bitmap, dwords, s, Next(d, dwords)) &&
                                     Dist(s, Next(d, dwords), dwords) == Dist(s, d, dwords) + 1
    ensures Next(d, dwords) == s ==> forall e :: 0 <= e < dwords ==> FullDword(bitmap, e)
  {
  }

  lemma AllDwordsFull(bitmap: seq<Byte>, pages: nat)
    requires pages % 32 == 0 && pages <= 8 * |bitmap|
    requires forall e :: 0 <= e < pages / 32 ==> FullDword(bitmap, e)
    ensures Full(bitmap, pages)
  {
    forall p | 0 <= p < pages
      ensures Marked(bitmap, p)
    {
      assert FullDword(bitmap, p / 32);
    }
  }

  /** The first loop of pmm_search_free_page: to a double word with a free page, or once round. */
  method SkipFullDwords(bitmap: seq<Byte>, pages: nat, start: nat) returns (p: nat, found: bool)
    requires start < pages && pages % 32 == 0 && pages <= 8 * |bitmap|
    ensures p < pages && (found <==> !Full(bitmap, pages))
    ensures found ==> !FullDword(bitmap, p / 32)
  {
    p := start;
    DwordIsFull(bitmap, p);
    while Dword(bitmap, p) == BIT32_MAX
      invariant p < pages && p % 32 == start % 32 && Skipped(bitmap, pages / 32, start / 32, p / 32)
      invariant Dword(bitmap, p) == BIT32_MAX <==> FullDword(bitmap, p / 32)
      decreases pages / 32 - Dist(start / 32, p / 32, pages / 32)
    {
      NextDword(pages, start, p);
      SkipOne(bitmap, pages / 32, start / 32, p / 32);
      p := (p + 32) % pages;
      if p == start {
        AllDwordsFull(bitmap, pages);
        return p, false;
      }
      DwordIsFull(bitmap, p);
    }
    ghost var c :| 32 * (p / 32) <= c < 32 * (p / 32) + 32 && !Marked(bitmap, c);
    return p, true;
  }

  /** The second loop: from `start` page by page, round the end if need be, to a free page. */
  method FirstFreeFrom(bitmap: seq<Byte>, pages: nat, start: nat) returns (p: nat)
    requires start < pages <= 8 * |bitmap| && !Full(bitmap, pages)
    ensures p < pages && !Marked(bitmap, p)
    ensures forall q :: 0 <= q < pages && Dist(start, q, pages) < Dist(start, p, pages) ==> Marked(bitmap, q)
  {
    ghost var c: nat :| c < pages && !Marked(bitmap, c);
    p := start;
    while Marked(bitmap, p)
      invariant p < pages && Dist(start, p, pages) <= Dist(start, c, pages)
      invariant forall q :: 0 <= q < pages && Dist(start, q, pages) < Dist(start, p, pages) ==> Marked(bitmap, q)
      decreases pages - Dist(start, p, pages)
    {
      PassPage(bitmap, pages, start, p, c);
      p := (p + 1) % pages;
    }
  }

  lemma PassPage(bitmap: seq<Byte>, pages: nat, start: nat, p: nat, c: nat)
    requires start < pages <= 8 * |bitmap| && p < pages && c < pages && Marked(bitmap, p) && !Marked(bitmap, c)
    requires Dist(start, p, pages) <= Dist(start, c, pages)
    requires forall q :: 0 <= q < pages && Dist(start, q, pages) < Dist(start, p, pages) ==> Marked(bitmap, q)
    ensures var n := (p + 1) % pages;
            n < pages && Dist(start, n, pages) == Dist(start, p, pages) + 1 <= Dist(start, c, pages) &&
            forall q :: 0 <= q < pages && Dist(start, q, pages) < Dist(start, n, pages) ==> Marked(bitmap, q)
  {
    ModWraps(p + 1, pages);
    DistInjective(start, p, c, pages);
    DistNext(start, p, pages);
    forall q | 0 <= q < pages && Dist(start, q, pages) == Dist(start, p, pages)
      ensures Marked(bitmap, q)
    {
      DistInjective(start, q, p, pages);
    }
  }

  /** pmm_search_free_page: a free page exactly when there is one, else BIT32_MAX. */
  method SearchFreePage(bitmap: seq<Byte>, pages: nat, start: nat) returns (r: nat)
    requires start < pages < BIT32_MAX && pages % 32 == 0 && pages <= 8 * |bitmap|
    ensures r == BIT32_MAX <==> Full(bitmap, pages)
    ensures !Full(bitmap, pages) ==> r < pages && !Marked(bitmap, r)
  {
    var p, found := SkipFullDwords(bitmap, pages, start);
    if !found {
      return BIT32_MAX;
    }
    r := FirstFreeFrom(bitmap, pages, p);
  }

  // ---------- Allocation ----------

  ghost function FreePages(bitmap: seq<Byte>, pages: nat): set<nat>
    requires pages <= 8 * |bitmap|
  {
    set p: nat | p < pages && !Marked(bitmap, p)
  }

  lemma MarkTakes(bitmap: seq<Byte>, pages: nat, p: nat)
    requires p < pages <= 8 * |bitmap|
    ensures FreePages(Mark(bitmap, p), pages) == FreePages(bitmap, pages) - {p}
  {
    forall q: nat | q < pages
      ensures Marked(Mark(bitmap, p), q) <==> q == p || Marked(bitmap, q)
    {
      MarkOne(bitmap, p, q);
    }
  }

  lemma UnmarkGives(bitmap: seq<Byte>, pages: nat, p: nat)
    requires p < pages <= 8 * |bitmap|
    ensures FreePages(Unmark(bitmap, p), pages) == FreePages(bitmap, pages) + {p}
  {
    forall q: nat | q < pages
      ensures Marked(Unmark(bitmap, p), q) <==> q != p && Marked(bitmap, q)
    {
      UnmarkOne(bitmap, p, q);
    }
  }

  class FrameAllocator {
    const pages: nat            // num_of_pages
    const bitmap: array<Byte>   // mem_bitmap
    var lastAlloc: nat
    ghost var held: set<nat>    // handed out and not yet given back
    ghost const pool: set<nat>  // free at the beginning

    ghost function Free(): set<nat>
      reads bitmap
    {
      if pages <= 8 * bitmap.Length then FreePages(bitmap[..], pages) else {}
    }

    /** Free and held pages are disjoint and together are the pages free at the beginning. */
    ghost predicate Valid()
      reads this, bitmap
    {
      && 0 < pages <= 0x10_0000 && pages % 32 == 0 && pages <= 8 * bitmap.Length
      && (lastAlloc < pages || lastAlloc == BIT32_MAX)
      && Free() !! held && Free() + held == pool
    }

    constructor (pages: nat, bitmap: array<Byte>)
      requires 0 < pages <= 0x10_0000 && pages % 32 == 0 && pages <= 8 * bitmap.Length
      ensures Valid() && this.pages == pages && this.bitmap == bitmap && held == {} && lastAlloc == 0
    {
      this.pages := pages;
      this.bitmap := bitmap;
      lastAlloc := 0;
      held := {};
      pool := FreePages(bitmap[..], pages);
    }

    /** pmm_set_bit. */
    method SetBit(p: nat)
      requires p < 8 * bitmap.Length
      modifies bitmap
      ensures bitmap[..] == Mark(old(bitmap[..]), p)
    {
      bitmap[p / 8] := WithBit(bitmap[p / 8], p % 8);
    }

    /** pmm_clear_bit. */
    method ClearBit(p: nat)
      requires p < 8 * bitmap.Length
      modifies bitmap
      ensures bitmap[..] == Unmark(old(bitmap[..]), p)
    {
      bitmap[p / 8] := WithoutBit(bitmap[p / 8], p % 8);
    }

    /** pmm_alloc: NULL once nothing is free; otherwise a page that nobody holds. */
    method Alloc() returns (addr: nat)
      requires Valid() && lastAlloc < pages
      modifies this`lastAlloc, this`held, bitmap
      ensures Valid()
      ensures old(Free()) == {} ==> addr == 0 && lastAlloc == BIT32_MAX && held == old(held) && Free() == {}
      ensures old(Free()) != {} ==>
                && lastAlloc in old(Free()) && lastAlloc !in old(held) && addr == lastAlloc * PAGE_FRAME_SIZE < TWO32
                && held == old(held) + {lastAlloc} && Free() == old(Free()) - {lastAlloc}
    {
      lastAlloc := SearchFreePage(bitmap[..], pages, lastAlloc);
      if lastAlloc == BIT32_MAX {
        return 0;
      }
      assert lastAlloc in Free();
      MarkTakes(bitmap[..], pages, lastAlloc);
      SetBit(lastAlloc);
      held := held + {lastAlloc};
      return lastAlloc * PAGE_FRAME_SIZE;
    }

    /**
      pmm_free of any page of the bitmap.  It keeps free and held pages conserved if and only
      if the page was one of those free at the beginning; freeing it twice does no harm.
    */
    method Release(addr: nat)
      requires Valid() && addr / PAGE_FRAME_SIZE < pages
      modifies this`held, bitmap
      ensures held == old(held) - {addr / PAGE_FRAME_SIZE} && Free() == old(Free()) + {addr / PAGE_FRAME_SIZE}
      ensures Valid() <==> addr / PAGE_FRAME_SIZE in pool
    {
      var index := addr / PAGE_FRAME_SIZE;
      UnmarkGives(bitmap[..], pages, index);
      ClearBit(index);
      held := held - {index};
    }
  }
}
