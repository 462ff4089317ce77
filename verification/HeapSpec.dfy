/**
  The kernel heap of src/kernel/memory/vmm.c on values: an address-sorted list of
  free nodes, the table of live blocks, and what kmalloc and kfree do to them.
  The class in Vmm.dfy works on memory words and is proved to do exactly this.
*/
module HeapSpec {
  import opened Common

  const NODE_BYTES: nat := 8    // sizeof(node_t)
  const HEADER_BYTES: nat := 4  // sizeof(size_t), stored in front of every block
  const KHEAP_BLOCK_START: nat := 0xDFFF_F000  // the page-block heap grows down from here

  /** A free node at `addr`: eight bytes of node_t followed by `size` free bytes. */
  datatype Node = Node(addr: nat, size: nat) {
    function End(): nat {
      addr + NODE_BYTES + size
    }
  }

  /** `live` maps the address of a block's header to the value stored in it. */
  datatype Heap = Heap(start: nat, end: nat, nodes: seq<Node>, live: map<nat, nat>)

  // ---------- The tiling invariant ----------

  ghost predicate InNode(n: Node, x: int) {
    n.addr <= x < n.End()
  }

  ghost predicate InFree(nodes: seq<Node>, x: int) {
    exists i :: 0 <= i < |nodes| && InNode(nodes[i], x)
  }

  ghost predicate InBlock(live: map<nat, nat>, b: nat, x: int) {
    b in live && b <= x < b + live[b]
  }

  ghost predicate InLive(live: map<nat, nat>, x: int) {
    exists b :: InBlock(live, b, x)
  }

  ghost predicate Sorted(nodes: seq<Node>) {
    forall i, j :: 0 <= i < j < |nodes| ==> nodes[i].End() <= nodes[j].addr
  }

  ghost predicate Apart(n: Node, live: map<nat, nat>) {
    forall b :: b in live ==> b + live[b] <= n.addr || n.End() <= b
  }

  ghost predicate BlocksOk(h: Heap) {
    && (forall b :: b in h.live ==> HEADER_BYTES <= h.live[b] && h.start <= b && b + h.live[b] <= h.end)
    && (forall b, c :: b in h.live && c in h.live && b < c ==> b + h.live[b] <= c)
  }

  ghost predicate NodesOk(h: Heap) {
    && |h.nodes| > 0
    && h.nodes[0].addr == h.start
    && Sorted(h.nodes)
    && (forall i :: 0 <= i < |h.nodes| ==> h.nodes[i].End() <= h.end && Apart(h.nodes[i], h.live))
  }

  ghost predicate Covered(h: Heap) {
    forall x :: h.start <= x < h.end ==> InFree(h.nodes, x) || InLive(h.live, x)
  }

  /** Free extents and live blocks cut [start, end) into disjoint pieces and leave nothing out. */
  ghost predicate Tiled(h: Heap) {
    && 0 < h.start <= h.end < TWO32
    && BlocksOk(h)
    && NodesOk(h)
    && Covered(h)
  }

  /** Node `i` does not end where the next one begins. */
  ghost predicate Gap(nodes: seq<Node>, i: nat)
    requires i + 1 < |nodes|
  {
    nodes[i].End() != nodes[i + 1].addr
  }

  ghost predicate Coalesced(nodes: seq<Node>) {
    forall i :: 0 <= i < |nodes| - 1 ==> Gap(nodes, i)
  }

  ghost predicate Inv(h: Heap) {
    Tiled(h) && Coalesced(h.nodes)
  }

  /** The tiling read byte by byte: each heap byte has one owner, and no byte outside has any. */
  lemma EveryByteHasOneOwner(h: Heap, x: int)
    requires Tiled(h)
    ensures h.start <= x < h.end <==> InFree(h.nodes, x) || InLive(h.live, x)
    ensures !(InFree(h.nodes, x) && InLive(h.live, x))
    ensures forall i, j ::
              0 <= i < |h.nodes| && 0 <= j < |h.nodes| && InNode(h.nodes[i], x) && InNode(h.nodes[j], x) ==> i == j
    ensures forall b, c :: InBlock(h.live, b, x) && InBlock(h.live, c, x) ==> b == c
  {
    if InFree(h.nodes, x) {
      var i :| 0 <= i < |h.nodes| && InNode(h.nodes[i], x);
      assert i == 0 || h.nodes[0].End() <= h.nodes[i].addr;
      assert Apart(h.nodes[i], h.live);
    }
  }

  // ---------- vmm_merge_free_block ----------

  lemma CoalescedTail(nodes: seq<Node>)
    requires |nodes| > 0
    ensures Coalesced(nodes) <==> Coalesced(nodes[1..]) && (|nodes| > 1 ==> Gap(nodes, 0))
  {
    assert forall i :: 0 <= i < |nodes| - 2 ==> Gap(nodes[1..], i) == Gap(nodes, i + 1);
    forall i | 0 < i < |nodes| - 1
      ensures Gap(nodes, i) == Gap(nodes[1..], i - 1)
    {
    }
  }

  function Join(a: Node, b: Node): Node {
    Node(a.addr, a.size + b.size + NODE_BYTES)
  }

  /** What vmm_merge_free_block makes of a list: touching neighbours become one node. */
  function Merge(nodes: seq<Node>): seq<Node>
    decreases |nodes|
  {
    if |nodes| < 2 then nodes
    else if nodes[0].End() == nodes[1].addr then Merge([Join(nodes[0], nodes[1])] + nodes[2..])
    else [nodes[0]] + Merge(nodes[1..])
  }

  lemma InFreeCons(n: Node, rest: seq<Node>, x: int)
    ensures InFree([n] + rest, x) <==> InNode(n, x) || InFree(rest, x)
  {
    var all := [n] + rest;
    if InNode(n, x) {
      assert InNode(all[0], x);
    }
    if InFree(rest, x) {
      var i :| 0 <= i < |rest| && InNode(rest[i], x);
      assert InNode(all[i + 1], x);
    }
    if InFree(all, x) {
      var i :| 0 <= i < |all| && InNode(all[i], x);
      assert i == 0 || InNode(rest[i - 1], x);
    }
  }

  /** Merging never gains or loses a free byte, whatever the list. */
  lemma {:induction false} MergeCovers(nodes: seq<Node>, x: int)
    ensures InFree(Merge(nodes), x) <==> InFree(nodes, x)
    decreases |nodes|
  {
    if |nodes| < 2 {
    } else {
      InFreeCons(nodes[0], nodes[1..], x);
      assert nodes == [nodes[0]] + nodes[1..];
      if nodes[0].End() == nodes[1].addr {
        var joined := Join(nodes[0], nodes[1]);
        MergeCovers([joined] + nodes[2..], x);
        InFreeCons(joined, nodes[2..], x);
        InFreeCons(nodes[1], nodes[2..], x);
        assert nodes[1..] == [nodes[1]] + nodes[2..];
      } else {
        MergeCovers(nodes[1..], x);
        InFreeCons(nodes[0], Merge(nodes[1..]), x);
      }
    }
  }

  /** Merging keeps the list sorted and its head in place, and leaves no touching neighbours. */
  lemma {:induction false} MergeSorts(nodes: seq<Node>)
    requires Sorted(nodes) && |nodes| > 0
    ensures Sorted(Merge(nodes)) && Coalesced(Merge(nodes))
    ensures 0 < |Merge(nodes)| <= |nodes| && Merge(nodes)[0].addr == nodes[0].addr
    decreases |nodes|
  {
    if |nodes| < 2 {
    } else {
      if nodes[0].End() == nodes[1].addr {
        var shorter := [Join(nodes[0], nodes[1])] + nodes[2..];
        assert forall i :: 0 < i < |shorter| ==> shorter[i] == nodes[i + 1];
        MergeSorts(shorter);
      } else {
        assert forall i :: 0 <= i < |nodes[1..]| ==> nodes[1..][i] == nodes[i + 1];
        MergeSorts(nodes[1..]);
        assert Merge(nodes)[1..] == Merge(nodes[1..]);
        CoalescedTail(Merge(nodes));
      }
    }
  }

  /** A coalesced list is left alone. */
  lemma {:induction false} MergeIdempotent(nodes: seq<Node>)
    requires Coalesced(nodes)
    ensures Merge(nodes) == nodes
    decreases |nodes|
  {
    if |nodes| < 2 {
    } else {
      CoalescedTail(nodes);
      MergeIdempotent(nodes[1..]);
      assert nodes == [nodes[0]] + nodes[1..];
    }
  }

  /** If a list covers bytes of [lo, hi) only, every node lies in it. */
  lemma NodeWithin(nodes: seq<Node>, i: nat, lo: nat, hi: nat)
    requires i < |nodes|
    requires forall x :: InFree(nodes, x) ==> lo <= x < hi
    ensures lo <= nodes[i].addr && nodes[i].End() <= hi
  {
    assert InNode(nodes[i], nodes[i].addr) && InNode(nodes[i], nodes[i].End() - 1);
    assert InFree(nodes, nodes[i].addr) && InFree(nodes, nodes[i].End() - 1);
  }

  /** A node none of whose bytes is in a live block lies beside every block. */
  lemma NodeApart(n: Node, live: map<nat, nat>)
    requires forall b :: b in live ==> live[b] > 0
    requires forall x :: InNode(n, x) ==> !InLive(live, x)
    ensures Apart(n, live)
  {
    forall b | b in live
      ensures b + live[b] <= n.addr || n.End() <= b
    {
      if b < n.End() && n.addr < b + live[b] {
        var x := if b < n.addr then n.addr else b;
        assert InNode(n, x) && InBlock(live, b, x);
        assert false;
      }
    }
  }

  /** Replacing the free list by its merge keeps the tiling and coalesces it. */
  lemma MergeKeepsTiling(h: Heap)
    requires Tiled(h)
    ensures Inv(h.(nodes := Merge(h.nodes)))
  {
    var merged := Merge(h.nodes);
    var h' := h.(nodes := merged);
    MergeSorts(h.nodes);
    forall x
      ensures InFree(merged, x) <==> InFree(h.nodes, x)
      ensures InFree(h.nodes, x) ==> h.start <= x < h.end && !InLive(h.live, x)
    {
      MergeCovers(h.nodes, x);
      EveryByteHasOneOwner(h, x);
    }
    forall i | 0 <= i < |merged|
      ensures merged[i].End() <= h.end && Apart(merged[i], h.live)
    {
      NodeWithin(merged, i, h.start, h.end);
      forall x | InNode(merged[i], x)
        ensures !InLive(h.live, x)
      {
        assert InFree(merged, x);
      }
      NodeApart(merged[i], h.live);
    }
  }

  // ---------- vmm_sorted_insert and kfree ----------

  /** Where the walk of vmm_sorted_insert stops; the head itself is never compared. */
  function InsertionPoint(nodes: seq<Node>, addr: nat, k: nat): (r: nat)
    requires 1 <= k <= |nodes|
    ensures k <= r <= |nodes|
    ensures forall i :: k <= i < r ==> nodes[i].addr <= addr
    ensures r < |nodes| ==> addr < nodes[r].addr
    decreases |nodes| - k
  {
    if k < |nodes| && nodes[k].addr <= addr then InsertionPoint(nodes, addr, k + 1) else k
  }

  function Insert(nodes: seq<Node>, n: Node): seq<Node>
    requires |nodes| > 0
  {
    var k := InsertionPoint(nodes, n.addr, 1);
    nodes[..k] + [n] + nodes[k..]
  }

  /** The node_t that kfree lays over a block: its header minus eight, in 32-bit arithmetic. */
  function FreedNode(h: Heap, b: nat): Node
    requires b in h.live
  {
    Node(b, (h.live[b] + TWO32 - NODE_BYTES) % TWO32)
  }

  /** kfree of the block whose header is at `b`. */
  function Release(h: Heap, b: nat): Heap
    requires b in h.live && |h.nodes| > 0
  {
    h.(nodes := Merge(Insert(h.nodes, FreedNode(h, b))), live := h.live - {b})
  }

  lemma InsertCovers(nodes: seq<Node>, n: Node, x: int)
    requires |nodes| > 0
    ensures InFree(Insert(nodes, n), x) <==> InFree(nodes, x) || InNode(n, x)
  {
    var k := InsertionPoint(nodes, n.addr, 1);
    var all := Insert(nodes, n);
    assert all[k] == n;
    assert forall i :: 0 <= i < k ==> all[i] == nodes[i];
    assert forall i :: k < i < |all| ==> all[i] == nodes[i - 1];
    if InFree(nodes, x) {
      var i :| 0 <= i < |nodes| && InNode(nodes[i], x);
      assert InNode(all[if i < k then i else i + 1], x);
    }
    if InFree(all, x) && !InNode(n, x) {
      var i :| 0 <= i < |all| && InNode(all[i], x);
      assert InNode(nodes[if i < k then i else i - 1], x);
    }
  }

  lemma InsertAt(nodes: seq<Node>, n: Node, i: nat)
    requires |nodes| > 0 && i <= |nodes|
    ensures var k := InsertionPoint(nodes, n.addr, 1);
            Insert(nodes, n)[i] == if i < k then nodes[i] else if i == k then n else nodes[i - 1]
  {
  }

  lemma InsertSorts(nodes: seq<Node>, n: Node)
    requires |nodes| > 0 && Sorted(nodes) && nodes[0].End() <= n.addr
    requires forall i :: 0 <= i < |nodes| ==> n.End() <= nodes[i].addr || nodes[i].End() <= n.addr
    ensures Sorted(Insert(nodes, n))
  {
    var k := InsertionPoint(nodes, n.addr, 1);
    var all := Insert(nodes, n);
    hide Insert;
    forall i, j | 0 <= i < j < |all|
      ensures all[i].End() <= all[j].addr
    {
      InsertAt(nodes, n, i);
      InsertAt(nodes, n, j);
      assert k < |nodes| ==> n.addr < nodes[k].addr;
      assert k < j ==> nodes[k].addr <= nodes[j - 1].addr;
    }
  }

  lemma InsertNodesOk(h: Heap, b: nat)
    requires Tiled(h) && b in h.live && h.live[b] >= NODE_BYTES
    ensures NodesOk(h.(nodes := Insert(h.nodes, FreedNode(h, b)), live := h.live - {b}))
  {
    var n := FreedNode(h, b);
    var nodes' := Insert(h.nodes, n);
    assert n.End() == b + h.live[b];
    forall i | 0 <= i < |h.nodes|
      ensures n.End() <= h.nodes[i].addr || h.nodes[i].End() <= n.addr
    {
      assert Apart(h.nodes[i], h.live);
    }
    InsertSorts(h.nodes, n);
    var k := InsertionPoint(h.nodes, n.addr, 1);
    forall i | 0 <= i < |nodes'|
      ensures nodes'[i].End() <= h.end && Apart(nodes'[i], h.live - {b})
    {
      if i != k {
        var o := if i < k then i else i - 1;
        assert nodes'[i] == h.nodes[o];
        assert Apart(h.nodes[o], h.live);
      }
    }
  }

  lemma InsertCoversAll(h: Heap, b: nat, x: int)
    requires Covered(h) && |h.nodes| > 0 && b in h.live && h.live[b] >= NODE_BYTES && b + h.live[b] < TWO32
    requires h.start <= x < h.end
    ensures InFree(Insert(h.nodes, FreedNode(h, b)), x) || InLive(h.live - {b}, x)
  {
    InsertCovers(h.nodes, FreedNode(h, b), x);
    hide Insert;
    if InLive(h.live, x) {
      var c :| InBlock(h.live, c, x);
      assert c == b || InBlock(h.live - {b}, c, x);
    }
  }

  /** Turning a block of at least eight bytes back into a node keeps the tiling. */
  lemma InsertKeepsTiling(h: Heap, b: nat)
    requires Tiled(h) && b in h.live && h.live[b] >= NODE_BYTES
    ensures Tiled(h.(nodes := Insert(h.nodes, FreedNode(h, b)), live := h.live - {b}))
  {
    InsertNodesOk(h, b);
    assert b + h.live[b] <= h.end && |h.nodes| > 0;
    hide Insert, NodesOk, FreedNode;
    forall x | h.start <= x < h.end
      ensures InFree(Insert(h.nodes, FreedNode(h, b)), x) || InLive(h.live - {b}, x)
    {
      InsertCoversAll(h, b, x);
    }
  }

  /**
    kfree keeps the invariant exactly when the block holds a whole node_t, that is when at
    least four bytes were requested: below that the node's size wraps around.
  */
  lemma ReleaseKeepsInvIff(h: Heap, b: nat)
    requires Inv(h) && b in h.live
    ensures Inv(Release(h, b)) <==> h.live[b] >= NODE_BYTES
  {
    var n := FreedNode(h, b);
    var inserted := Insert(h.nodes, n);
    if h.live[b] >= NODE_BYTES {
      InsertKeepsTiling(h, b);
      MergeKeepsTiling(h.(nodes := inserted, live := h.live - {b}));
    } else {
      assert n.size == h.live[b] + TWO32 - NODE_BYTES;
      var x := n.End() - 1;
      assert InNode(n, x);
      InsertCovers(h.nodes, n, x);
      MergeCovers(inserted, x);
      if Inv(Release(h, b)) {
        EveryByteHasOneOwner(Release(h, b), x);
      }
    }
  }

  // ---------- vmm_get_node and vmm_list_alloc ----------

  /** vmm_get_node: the first node with strictly more room than needed, or the list's length. */
  function FirstFit(nodes: seq<Node>, need: nat, i: nat): (r: nat)
    requires i <= |nodes|
    ensures i <= r <= |nodes|
    ensures forall j :: i <= j < r ==> nodes[j].size <= need
    ensures r < |nodes| ==> nodes[r].size > need
    decreases |nodes| - i
  {
    if i < |nodes| && nodes[i].size <= need then FirstFit(nodes, need, i + 1) else i
  }

  /** Bytes taken from the heap for a request, in 32-bit arithmetic. */
  function Need(request: nat): nat {
    (request + HEADER_BYTES) % TWO32
  }

  /** The block is cut from the tail of node `i`. */
  function Carve(h: Heap, i: nat, need: nat): Heap
    requires i < |h.nodes| && need < h.nodes[i].size
  {
    var n := Node(h.nodes[i].addr, h.nodes[i].size - need);
    h.(nodes := h.nodes[i := n], live := h.live[n.End() := need])
  }

  /** One more page behind the heap, merged into the list. */
  function Grow(h: Heap): Heap {
    h.(nodes := Merge(h.nodes + [Node(h.end, PAGE_FRAME_SIZE - NODE_BYTES)]), end := h.end + PAGE_FRAME_SIZE)
  }

  /** vmm_list_alloc: the heap afterwards and the address handed out. */
  function Alloc(h: Heap, need: nat, limit: nat): (Heap, Option<nat>)
    decreases limit + PAGE_FRAME_SIZE - h.end
  {
    var i := FirstFit(h.nodes, need, 0);
    if i < |h.nodes| then
      (Carve(h, i, need), Some(h.nodes[i].End() - need + HEADER_BYTES))
    else if h.end > limit then
      (h, None)
    else
      Alloc(Grow(h), need, limit)
  }

  /** The block ends where the node ended, no node moves, and the others keep their size. */
  lemma CarveTakesTheTail(h: Heap, i: nat, need: nat)
    requires i < |h.nodes| && need < h.nodes[i].size
    ensures var g := Carve(h, i, need);
            && |g.nodes| == |h.nodes| && (forall j :: 0 <= j < |h.nodes| ==> g.nodes[j].addr == h.nodes[j].addr)
            && (forall j :: 0 <= j < |h.nodes| && j != i ==> g.nodes[j] == h.nodes[j])
            && g.nodes[i].End() in g.live && g.nodes[i].End() + g.live[g.nodes[i].End()] == h.nodes[i].End()
  {
  }

  lemma CarveCovers(h: Heap, i: nat, need: nat, x: int)
    requires Tiled(h) && i < |h.nodes| && 0 < need < h.nodes[i].size
    requires h.start <= x < h.end
    ensures InFree(Carve(h, i, need).nodes, x) || InLive(Carve(h, i, need).live, x)
  {
    var h' := Carve(h, i, need);
    var b := h.nodes[i].End() - need;
    if InFree(h.nodes, x) {
      var j :| 0 <= j < |h.nodes| && InNode(h.nodes[j], x);
      if j == i && b <= x {
        assert InBlock(h'.live, b, x);
      } else {
        assert InNode(h'.nodes[j], x);
      }
    } else {
      var c :| InBlock(h.live, c, x);
      assert Apart(h.nodes[i], h.live);
      assert c != b;
      assert InBlock(h'.live, c, x);
    }
  }

  lemma CarveKeepsNodes(h: Heap, i: nat, need: nat, j: nat)
    requires NodesOk(h) && i < |h.nodes| && 0 < need < h.nodes[i].size && j < |h.nodes|
    ensures Carve(h, i, need).nodes[j].End() <= h.end && Apart(Carve(h, i, need).nodes[j], Carve(h, i, need).live)
  {
    assert Apart(h.nodes[j], h.live);
    assert j < i ==> h.nodes[j].End() <= h.nodes[i].addr;
    assert i < j ==> h.nodes[i].End() <= h.nodes[j].addr;
  }

  lemma CarveKeepsBlocks(h: Heap, i: nat, need: nat)
    requires BlocksOk(h) && NodesOk(h) && i < |h.nodes| && HEADER_BYTES <= need < h.nodes[i].size
    ensures BlocksOk(Carve(h, i, need))
  {
    assert Apart(h.nodes[i], h.live) && h.nodes[i].End() <= h.end;
    assert h.start <= h.nodes[i].addr by {
      assert i == 0 || h.nodes[0].End() <= h.nodes[i].addr;
    }
  }

  lemma CarveKeepsTiling(h: Heap, i: nat, need: nat)
    requires Tiled(h) && i < |h.nodes| && HEADER_BYTES <= need < h.nodes[i].size
    ensures Tiled(Carve(h, i, need))
  {
    CarveKeepsBlocks(h, i, need);
    hide BlocksOk, Apart;
    forall j | 0 <= j < |h.nodes|
      ensures Carve(h, i, need).nodes[j].End() <= h.end && Apart(Carve(h, i, need).nodes[j], Carve(h, i, need).live)
    {
      CarveKeepsNodes(h, i, need, j);
    }
    forall x | h.start <= x < h.end
      ensures InFree(Carve(h, i, need).nodes, x) || InLive(Carve(h, i, need).live, x)
    {
      CarveCovers(h, i, need, x);
    }
  }

  /** Carving keeps the invariant exactly when the four header bytes fit in the carved piece. */
  lemma CarveKeepsInvIff(h: Heap, i: nat, need: nat)
    requires Inv(h) && i < |h.nodes| && need < h.nodes[i].size
    ensures Inv(Carve(h, i, need)) <==> need >= HEADER_BYTES
  {
    var h' := Carve(h, i, need);
    if need >= HEADER_BYTES {
      CarveKeepsTiling(h, i, need);
      forall j | 0 <= j < |h.nodes| - 1
        ensures Gap(h'.nodes, j)
      {
        assert Gap(h.nodes, j) && h.nodes[j].End() <= h.nodes[j + 1].addr;
      }
    } else {
      assert h'.live[h.nodes[i].End() - need] == need;
    }
  }

  lemma AppendPageKeepsTiling(h: Heap)
    requires Tiled(h) && h.end + PAGE_FRAME_SIZE < TWO32
    ensures Tiled(h.(nodes := h.nodes + [Node(h.end, PAGE_FRAME_SIZE - NODE_BYTES)], end := h.end + PAGE_FRAME_SIZE))
  {
    var page := Node(h.end, PAGE_FRAME_SIZE - NODE_BYTES);
    var h' := h.(nodes := h.nodes + [page], end := h.end + PAGE_FRAME_SIZE);
    assert forall i :: 0 <= i < |h.nodes| ==> h'.nodes[i] == h.nodes[i];
    forall x | h'.start <= x < h'.end
      ensures InFree(h'.nodes, x) || InLive(h'.live, x)
    {
      if x >= h.end {
        assert InNode(h'.nodes[|h.nodes|], x);
      } else if InFree(h.nodes, x) {
        var i :| 0 <= i < |h.nodes| && InNode(h.nodes[i], x);
        assert InNode(h'.nodes[i], x);
      }
    }
  }

  lemma GrowKeepsInv(h: Heap)
    requires Inv(h) && h.end + PAGE_FRAME_SIZE < TWO32
    ensures Inv(Grow(h))
  {
    AppendPageKeepsTiling(h);
    MergeKeepsTiling(h.(nodes := h.nodes + [Node(h.end, PAGE_FRAME_SIZE - NODE_BYTES)],
        end := h.end + PAGE_FRAME_SIZE));
  }

  /** The block an allocation created: exactly one new header, of the size asked for. */
  ghost predicate Handed(h: Heap, h': Heap, need: nat, p: Option<nat>) {
    match p
    case None => h'.live == h.live
    case Some(a) =>
      a >= HEADER_BYTES && a - HEADER_BYTES !in h.live && h'.live == h.live[a - HEADER_BYTES := need]
  }

  /** The node found is free memory, so the block cut from it is new. */
  lemma CarveHands(h: Heap, i: nat, need: nat)
    requires Tiled(h) && i < |h.nodes| && HEADER_BYTES <= need < h.nodes[i].size
    ensures Handed(h, Carve(h, i, need), need, Some(h.nodes[i].End() - need + HEADER_BYTES))
  {
    assert Apart(h.nodes[i], h.live);
  }

  /**
    kmalloc keeps the invariant unless the size computation wraps (a request within four of
    2^32); then, and only then, it breaks it by handing out a block without a header.
  */
  lemma {:induction false} AllocKeepsInvIff(h: Heap, need: nat, limit: nat)
    requires Inv(h) && limit <= KHEAP_BLOCK_START && h.end <= limit + PAGE_FRAME_SIZE
    ensures Alloc(h, need, limit).1.Some? ==>
              (Inv(Alloc(h, need, limit).0) <==> need >= HEADER_BYTES)
    ensures Alloc(h, need, limit).1.None? ==> Inv(Alloc(h, need, limit).0)
    ensures need >= HEADER_BYTES ==> Handed(h, Alloc(h, need, limit).0, need, Alloc(h, need, limit).1)
    ensures Alloc(h, need, limit).0.start == h.start
    ensures h.end <= Alloc(h, need, limit).0.end <= limit + PAGE_FRAME_SIZE
    decreases limit + PAGE_FRAME_SIZE - h.end
  {
    hide Tiled, Coalesced, Merge;
    var i := FirstFit(h.nodes, need, 0);
    if i < |h.nodes| {
      CarveKeepsInvIff(h, i, need);
      if need >= HEADER_BYTES {
        CarveHands(h, i, need);
      }
    } else if h.end <= limit {
      GrowKeepsInv(h);
      AllocKeepsInvIff(Grow(h), need, limit);
    }
  }

  // ---------- When kmalloc fails ----------

  /** Where the heap ends once it may not grow any further. */
  function LastEnd(end: nat, limit: nat): (r: nat)
    ensures end <= r && limit < r
  {
    if end > limit then end else end + ((limit - end) / PAGE_FRAME_SIZE + 1) * PAGE_FRAME_SIZE
  }

  lemma LastEndStep(end: nat, limit: nat)
    requires end <= limit
    ensures LastEnd(end + PAGE_FRAME_SIZE, limit) == LastEnd(end, limit)
  {
    if end + PAGE_FRAME_SIZE <= limit {
      assert (limit - end) / PAGE_FRAME_SIZE == (limit - end - PAGE_FRAME_SIZE) / PAGE_FRAME_SIZE + 1;
    }
  }

  /** Where the free bytes at the end of the heap begin, the end itself if there are none. */
  function TailStart(h: Heap): nat
    requires |h.nodes| > 0
  {
    var last := h.nodes[|h.nodes| - 1];
    if last.End() == h.end then last.addr else h.end
  }

  predicate SomeNodeFits(nodes: seq<Node>, need: nat) {
    exists i :: 0 <= i < |nodes| && nodes[i].size > need
  }

  /** A node fits, or the tail of the heap, grown as far as it may, would. */
  predicate CanServe(h: Heap, need: nat, limit: nat)
    requires |h.nodes| > 0
  {
    SomeNodeFits(h.nodes, need) || (h.end <= limit && LastEnd(h.end, limit) - TailStart(h) > need + NODE_BYTES)
  }

  lemma {:induction false} MergeLast(nodes: seq<Node>, page: Node)
    requires |nodes| > 0 && Coalesced(nodes)
    ensures Merge(nodes + [page]) ==
            if nodes[|nodes| - 1].End() == page.addr
            then nodes[..|nodes| - 1] + [Join(nodes[|nodes| - 1], page)]
            else nodes + [page]
    decreases |nodes|
  {
    var all := nodes + [page];
    if |nodes| == 1 {
      assert all[2..] == [] && all[1..] == [page];
    } else {
      CoalescedTail(nodes);
      assert all[1..] == nodes[1..] + [page] && all[0] == nodes[0] && all[1] == nodes[1];
      assert Gap(nodes, 0);
      MergeLast(nodes[1..], page);
      assert nodes == [nodes[0]] + nodes[1..];
    }
  }

  /** Growing by a page lengthens the tail and leaves the other nodes alone. */
  lemma GrowTail(h: Heap)
    requires Inv(h)
    ensures var g := Grow(h);
            && |g.nodes| > 0 && TailStart(g) == TailStart(h) && g.end == h.end + PAGE_FRAME_SIZE
            && g.nodes[|g.nodes| - 1] == Node(TailStart(h), g.end - TailStart(h) - NODE_BYTES)
            && forall i :: 0 <= i < |g.nodes| - 1 ==> i < |h.nodes| && g.nodes[i] == h.nodes[i]
  {
    MergeLast(h.nodes, Node(h.end, PAGE_FRAME_SIZE - NODE_BYTES));
    assert h.nodes[|h.nodes| - 1].End() <= h.end;
    hide Merge, Coalesced, Sorted, Covered;
  }

  lemma GrowServes(h: Heap, need: nat, limit: nat)
    requires Inv(h) && h.end <= limit && !SomeNodeFits(h.nodes, need)
    ensures |Grow(h).nodes| > 0 && (CanServe(Grow(h), need, limit) <==> CanServe(h, need, limit))
  {
    GrowTail(h);
    LastEndStep(h.end, limit);
    hide Inv, Grow, LastEnd, TailStart;
    var g := Grow(h);
    var last := g.nodes[|g.nodes| - 1];
    assert SomeNodeFits(g.nodes, need) <==> last.size > need;
  }

  /**
    kmalloc answers NULL if and only if no node fits and the tail, grown up to the limit, would
    not either; then the heap has grown as far as it may, and still no node fits.
  */
  lemma {:induction false} AllocFailsIff(h: Heap, need: nat, limit: nat)
    requires Inv(h) && limit <= KHEAP_BLOCK_START && h.end <= limit + PAGE_FRAME_SIZE
    ensures Alloc(h, need, limit).1.Some? <==> CanServe(h, need, limit)
    ensures Alloc(h, need, limit).1.None? ==>
              Alloc(h, need, limit).0.end > limit && !SomeNodeFits(Alloc(h, need, limit).0.nodes, need)
    decreases limit + PAGE_FRAME_SIZE - h.end
  {
    var i := FirstFit(h.nodes, need, 0);
    if i < |h.nodes| {
      assert h.nodes[i].size > need;
    } else if h.end <= limit {
      assert !SomeNodeFits(h.nodes, need);
      GrowKeepsInv(h);
      GrowServes(h, need, limit);
      hide Inv, CanServe, SomeNodeFits, Grow;
      AllocFailsIff(Grow(h), need, limit);
    }
  }

  /** With that much room below the limit a request never fails. */
  lemma RoomSuffices(h: Heap, need: nat, limit: nat)
    requires Inv(h) && limit <= KHEAP_BLOCK_START && h.end <= limit + PAGE_FRAME_SIZE
    requires h.end + need + NODE_BYTES <= limit
    ensures Alloc(h, need, limit).1.Some?
  {
    AllocFailsIff(h, need, limit);
    assert TailStart(h) <= h.end;
  }

  // ---------- Whole runs ----------

  /** The heap and the lower end of the page-block heap, kheap_stack_end, which limits its growth. */
  datatype Arena = Arena(heap: Heap, limit: nat)

  datatype Op = Malloc(request: nat) | Free(ptr: nat) | PageBlock

  /** vmm_kheap_list_init. */
  function Init(start: nat): Heap {
    Heap(start, start + PAGE_FRAME_SIZE, [Node(start, PAGE_FRAME_SIZE - NODE_BYTES)], map[])
  }

  /** A pointer kfree ignores, or one to a live block that can hold a node_t. */
  predicate Allowed(h: Heap, op: Op) {
    match op
    case Malloc(request) => request + HEADER_BYTES < TWO32
    case Free(ptr) =>
      ptr < h.start || ptr >= KHEAP_BLOCK_START + PAGE_FRAME_SIZE ||
      (ptr >= HEADER_BYTES && ptr - HEADER_BYTES in h.live && h.live[ptr - HEADER_BYTES] >= NODE_BYTES)
    case PageBlock => true
  }

  /** The list branches of kmalloc and kfree, and the growth of the page-block heap towards the list. */
  function Exec(a: Arena, op: Op): Arena
    requires |a.heap.nodes| > 0
  {
    match op
    case Malloc(request) => a.(heap := Alloc(a.heap, Need(request), a.limit).0)
    case Free(ptr) =>
      if ptr >= HEADER_BYTES && ptr - HEADER_BYTES in a.heap.live &&
          a.heap.start <= ptr < KHEAP_BLOCK_START + PAGE_FRAME_SIZE
      then a.(heap := Release(a.heap, ptr - HEADER_BYTES))
      else a
    case PageBlock =>
      if a.limit < a.heap.end then a else a.(limit := (a.limit + TWO32 - PAGE_FRAME_SIZE) % TWO32)
  }

  /** The heap is tiled and coalesced, and at most one page beyond the limit. */
  ghost predicate ArenaInv(a: Arena) {
    && Inv(a.heap) && a.limit <= KHEAP_BLOCK_START
    && PAGE_FRAME_SIZE <= a.heap.end <= a.limit + PAGE_FRAME_SIZE
  }

  /** Every state a disciplined caller can reach from `a`. */
  ghost predicate Reachable(a: Arena, a': Arena, ops: seq<Op>)
    decreases |ops|
  {
    if ops == [] then a' == a
    else |a.heap.nodes| > 0 && Allowed(a.heap, ops[0]) && Reachable(Exec(a, ops[0]), a', ops[1..])
  }

  lemma ExecKeepsInv(a: Arena, op: Op)
    requires ArenaInv(a) && Allowed(a.heap, op)
    ensures ArenaInv(Exec(a, op)) && Exec(a, op).heap.start == a.heap.start
  {
    hide Alloc, Merge, Insert, Covered, Sorted, Coalesced, BlocksOk;
    match op
    case Malloc(request) =>
      AllocKeepsInvIff(a.heap, Need(request), a.limit);
    case Free(ptr) =>
      if a.heap.start <= ptr < KHEAP_BLOCK_START + PAGE_FRAME_SIZE {
        ReleaseKeepsInvIff(a.heap, ptr - HEADER_BYTES);
      }
    case PageBlock =>
  }

  lemma {:induction false} RunKeepsInv(a: Arena, a': Arena, ops: seq<Op>)
    requires ArenaInv(a) && Reachable(a, a', ops)
    ensures ArenaInv(a') && a'.heap.start == a.heap.start
    decreases |ops|
  {
    if ops == [] {
    } else {
      ExecKeepsInv(a, ops[0]);
      RunKeepsInv(Exec(a, ops[0]), a', ops[1..]);
    }
  }

  lemma InitInv(start: nat, limit: nat)
    requires 0 < start <= limit <= KHEAP_BLOCK_START
    ensures ArenaInv(Arena(Init(start), limit))
  {
    var boot := Init(start);
    assert forall x :: boot.start <= x < boot.end ==> InNode(boot.nodes[0], x);
  }

  /**
    Over every run of kmalloc, kfree and page-block allocation from boot, free nodes and live
    blocks tile the heap, the list is coalesced, and its head is still the node at kheap_start.
  */
  lemma EveryRunTiles(start: nat, limit: nat, a: Arena, ops: seq<Op>)
    requires 0 < start <= limit <= KHEAP_BLOCK_START
    requires Reachable(Arena(Init(start), limit), a, ops)
    ensures Tiled(a.heap) && Coalesced(a.heap.nodes) && a.heap.nodes[0].addr == a.heap.start == start
    ensures a.heap.end <= a.limit + PAGE_FRAME_SIZE
  {
    InitInv(start, limit);
    RunKeepsInv(Arena(Init(start), limit), a, ops);
  }

  /** A live block that can be turned back into a node. */
  ghost predicate LiveNode(h: Heap, b: nat) {
    b in h.live && h.live[b] >= NODE_BYTES
  }

  lemma LivePointer(h: Heap, b: nat)
    requires Inv(h) && LiveNode(h, b)
    ensures h.start <= b + HEADER_BYTES < h.end
  {
    hide Covered, NodesOk, Coalesced;
  }

  /** A pointer from kmalloc has exactly the requested bytes behind it, in a block of its own. */
  lemma MallocGivesTheBytes(a: Arena, request: nat)
    requires ArenaInv(a) && request + HEADER_BYTES < TWO32
    ensures var p := Alloc(a.heap, Need(request), a.limit).1;
            p.Some? ==>
              && p.value >= HEADER_BYTES && p.value - HEADER_BYTES !in a.heap.live
              && Exec(a, Malloc(request)).heap.live == a.heap.live[p.value - HEADER_BYTES := request + HEADER_BYTES]
  {
    AllocKeepsInvIff(a.heap, Need(request), a.limit);
    hide Alloc, Inv;
  }

  /** kfree takes exactly the block it is given from the live ones. */
  lemma FreeTakesTheBlock(a: Arena, ptr: nat)
    requires ArenaInv(a) && ptr >= HEADER_BYTES && LiveNode(a.heap, ptr - HEADER_BYTES)
    ensures |a.heap.nodes| > 0 && Exec(a, Free(ptr)) == a.(heap := Release(a.heap, ptr - HEADER_BYTES))
    ensures Exec(a, Free(ptr)).heap.live == a.heap.live - {ptr - HEADER_BYTES}
  {
    LivePointer(a.heap, ptr - HEADER_BYTES);
    hide Covered, Coalesced, BlocksOk, Merge, Insert;
  }

  /** kmalloc that does not have to grow the heap, then kfree: the same heap. */
  lemma MallocThenFree(a: Arena, request: nat)
    requires ArenaInv(a) && NODE_BYTES <= request + HEADER_BYTES < TWO32
    requires FirstFit(a.heap.nodes, Need(request), 0) < |a.heap.nodes|
    ensures var p := Alloc(a.heap, Need(request), a.limit).1;
            p.Some? && |Exec(a, Malloc(request)).heap.nodes| > 0 && Exec(Exec(a, Malloc(request)), Free(p.value)) == a
  {
    hide Alloc, Release, Inv, FirstFit;
    FreeUndoesMalloc(a.heap, request, a.limit);
    ExecKeepsInv(a, Malloc(request));
    AllocKeepsInvIff(a.heap, Need(request), a.limit);
    FreeTakesTheBlock(Exec(a, Malloc(request)), Alloc(a.heap, Need(request), a.limit).1.value);
  }

  /** Every page block is a new page below all earlier ones, until the heaps meet. */
  lemma PageBlocksDescend(a: Arena)
    requires ArenaInv(a)
    ensures Exec(a, PageBlock).heap == a.heap
    ensures Exec(a, PageBlock).limit == if a.heap.end <= a.limit then a.limit - PAGE_FRAME_SIZE else a.limit
  {
  }

  // ---------- Where the discipline is needed ----------

  /** The first allocation of `need` bytes comes from the end of the first page. */
  lemma FirstAlloc(start: nat, need: nat, limit: nat)
    requires need < PAGE_FRAME_SIZE - NODE_BYTES
    ensures Alloc(Init(start), need, limit).0 == Carve(Init(start), 0, need)
    ensures Alloc(Init(start), need, limit).0.live == map[start + PAGE_FRAME_SIZE - need := need]
    ensures Alloc(Init(start), need, limit).1 == Some(start + PAGE_FRAME_SIZE - need + HEADER_BYTES)
  {
    assert FirstFit(Init(start).nodes, need, 0) == 0;
  }

  /** kmalloc(5000) from boot does not fit the first page: the heap grows, and the request is served. */
  lemma LargeMallocGrows(start: nat, limit: nat)
    requires 0 < start && start + 3 * PAGE_FRAME_SIZE <= limit <= KHEAP_BLOCK_START
    ensures FirstFit(Init(start).nodes, Need(5000), 0) == 1
    ensures Alloc(Init(start), Need(5000), limit).1.Some?
  {
    InitInv(start, limit);
    RoomSuffices(Init(start), Need(5000), limit);
  }

  /** kmalloc(1) from boot, allowed, gives a block of five bytes; freeing it breaks the heap. */
  lemma SmallFreeBreaks(start: nat, limit: nat)
    requires 0 < start <= limit <= KHEAP_BLOCK_START
    ensures var a := Exec(Arena(Init(start), limit), Malloc(1));
            var ptr := start + PAGE_FRAME_SIZE - 1;
            && Reachable(Arena(Init(start), limit), a, [Malloc(1)]) && ArenaInv(a)
            && a.heap.live == map[ptr - HEADER_BYTES := 5] && !Inv(Exec(a, Free(ptr)).heap)
  {
    var boot := Arena(Init(start), limit);
    var a := Exec(boot, Malloc(1));
    InitInv(start, limit);
    ExecKeepsInv(boot, Malloc(1));
    FirstAlloc(start, 5, limit);
    assert [Malloc(1)][1..] == [];
    ReleaseKeepsInvIff(a.heap, start + PAGE_FRAME_SIZE - 5);
  }

  /** kmalloc(2^32 - 4) from boot wraps to a block without room for its own header. */
  lemma WrappingMallocBreaks(start: nat, limit: nat)
    requires 0 < start <= limit <= KHEAP_BLOCK_START
    ensures ArenaInv(Arena(Init(start), limit))
    ensures !Inv(Exec(Arena(Init(start), limit), Malloc(TWO32 - HEADER_BYTES)).heap)
  {
    InitInv(start, limit);
    FirstAlloc(start, 0, limit);
    AllocKeepsInvIff(Init(start), Need(TWO32 - HEADER_BYTES), limit);
  }

  // ---------- kfree undoes kmalloc ----------

  lemma {:induction false} MergeRejoins(nodes: seq<Node>, i: nat, a: Node, b: Node)
    requires i < |nodes| && Coalesced(nodes)
    requires a.addr == nodes[i].addr && a.End() == b.addr && b.End() == nodes[i].End()
    ensures Merge(nodes[..i] + [a, b] + nodes[i + 1..]) == nodes
    decreases |nodes|
  {
    var split := nodes[..i] + [a, b] + nodes[i + 1..];
    if i == 0 {
      assert Join(a, b) == nodes[0];
      assert [Join(split[0], split[1])] + split[2..] == nodes;
      MergeIdempotent(nodes);
    } else {
      var rest := nodes[1..];
      CoalescedTail(nodes);
      assert split[1..] == rest[..i - 1] + [a, b] + rest[i..];
      assert split[0] == nodes[0] && split[1].addr == nodes[1].addr;
      MergeRejoins(rest, i - 1, a, b);
      assert nodes == [nodes[0]] + rest;
    }
  }

  /** The freed block goes back right behind the node it was carved from. */
  lemma CarvedBlockReinsertsBehind(h: Heap, i: nat, need: nat)
    requires Tiled(h) && i < |h.nodes| && 0 < need < h.nodes[i].size
    ensures InsertionPoint(Carve(h, i, need).nodes, h.nodes[i].End() - need, 1) == i + 1
  {
    var nodes' := Carve(h, i, need).nodes;
    var b := h.nodes[i].End() - need;
    assert forall j :: 0 <= j < i ==> h.nodes[j].End() <= h.nodes[i].addr;
    assert nodes'[i].addr <= b;
    assert forall j :: 1 <= j <= i ==> nodes'[j].addr <= b;
    assert i + 1 < |h.nodes| ==> h.nodes[i].End() <= h.nodes[i + 1].addr && nodes'[i + 1] == h.nodes[i + 1];
  }

  lemma ReleaseRestoresNode(h: Heap, i: nat, need: nat)
    requires Inv(h) && i < |h.nodes| && NODE_BYTES <= need < h.nodes[i].size
    ensures Merge(Insert(Carve(h, i, need).nodes, Node(h.nodes[i].End() - need, need - NODE_BYTES))) == h.nodes
  {
    var nodes' := Carve(h, i, need).nodes;
    var n := Node(h.nodes[i].End() - need, need - NODE_BYTES);
    CarvedBlockReinsertsBehind(h, i, need);
    assert Insert(nodes', n) == h.nodes[..i] + [nodes'[i], n] + h.nodes[i + 1..];
    MergeRejoins(h.nodes, i, nodes'[i], n);
  }

  lemma ReleaseUndoesCarve(h: Heap, i: nat, need: nat)
    requires Inv(h) && i < |h.nodes| && NODE_BYTES <= need < h.nodes[i].size
    ensures Release(Carve(h, i, need), h.nodes[i].End() - need) == h
  {
    var b := h.nodes[i].End() - need;
    ReleaseRestoresNode(h, i, need);
    hide Merge, Insert, Sorted, Coalesced, Covered;
    assert h.live[b := need] - {b} == h.live by {
      assert Apart(h.nodes[i], h.live);
      assert b !in h.live;
    }
    assert h.nodes[i].End() <= h.end;
    assert FreedNode(Carve(h, i, need), b) == Node(b, need - NODE_BYTES);
  }

  lemma AllocFound(h: Heap, need: nat, limit: nat)
    requires FirstFit(h.nodes, need, 0) < |h.nodes|
    ensures var i := FirstFit(h.nodes, need, 0);
            Alloc(h, need, limit) == (Carve(h, i, need), Some(h.nodes[i].End() - need + HEADER_BYTES))
  {
  }

  /** Freeing a block that was just allocated without growing the heap restores the heap exactly. */
  lemma FreeUndoesMalloc(h: Heap, request: nat, limit: nat)
    requires Inv(h) && NODE_BYTES <= request + HEADER_BYTES < TWO32
    requires FirstFit(h.nodes, Need(request), 0) < |h.nodes|
    ensures var (h', p) := Alloc(h, Need(request), limit);
            p.Some? && p.value >= HEADER_BYTES && p.value - HEADER_BYTES in h'.live &&
            Release(h', p.value - HEADER_BYTES) == h
  {
    hide Inv, Alloc, FirstFit, Release;
    AllocFound(h, Need(request), limit);
    ReleaseUndoesCarve(h, FirstFit(h.nodes, Need(request), 0), Need(request));
  }

  lemma GapIsNotFree(h: Heap)
    requires Inv(h) && |h.nodes| > 1
    ensures h.start <= h.nodes[0].End() < h.end
    ensures !InFree(h.nodes, h.nodes[0].End())
  {
    assert Gap(h.nodes, 0) && h.nodes[0].End() <= h.nodes[1].addr;
    assert h.nodes[1].End() <= h.end;
    assert forall j :: 1 < j < |h.nodes| ==> h.nodes[1].End() <= h.nodes[j].addr;
  }

  /** Once every block is freed, one node spans the whole heap. */
  lemma NothingLiveLeavesOneNode(h: Heap)
    requires Inv(h) && h.live == map[]
    ensures h.nodes == [Node(h.start, h.end - h.start - NODE_BYTES)]
  {
    EveryByteHasOneOwner(h, h.nodes[0].End());
    if |h.nodes| > 1 {
      GapIsNotFree(h);
    }
  }
}
