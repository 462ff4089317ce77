/**
  The list allocator of src/kernel/memory/vmm.c on memory words: intrusive nodes whose
  size and next fields are rewritten in place.  Every method is proved to act as the
  function of the same name in HeapSpec.
*/
module Vmm {
  import opened Common
  import opened HeapSpec

  /**
    Memory by 32-bit words.  A word can be read only at the address it was stored at, and
    only while none of its four bytes has been overwritten, so that stale or straddling
    reads cannot go unnoticed.
  */
  type Memory = map<int, nat>

  /** `m'` has the words of `m` that lie outside [lo, hi). */
  ghost predicate KeptOutside(m: Memory, m': Memory, lo: int, hi: int) {
    forall k :: k in m && (k + 4 <= lo || hi <= k) ==> k in m' && m'[k] == m[k]
  }

  /** `m'` is `m` after a word store. */
  ghost predicate Stored(m: Memory, a: nat, v: nat, m': Memory) {
    a in m' && m'[a] == v && KeptOutside(m, m', a, a + 4)
  }

  // ---------- How memory represents a list and the blocks ----------

  /** The address of node `i`, or NULL behind the last node. */
  function Ptr(nodes: seq<Node>, i: nat): nat {
    if i < |nodes| then nodes[i].addr else 0
  }

  ghost predicate NodeRep(m: Memory, n: Node, next: nat) {
    && n.addr in m && m[n.addr] == n.size
    && n.addr + 4 in m && m[n.addr + 4] == next
  }

  ghost predicate RepAt(m: Memory, nodes: seq<Node>, i: nat)
    requires i < |nodes|
  {
    NodeRep(m, nodes[i], Ptr(nodes, i + 1))
  }

  ghost predicate ListRep(m: Memory, nodes: seq<Node>) {
    forall i :: 0 <= i < |nodes| ==> RepAt(m, nodes, i)
  }

  ghost predicate LiveRep(m: Memory, live: map<nat, nat>) {
    forall b :: b in live ==> b in m && m[b] == live[b]
  }

  lemma StoreFrame(m: Memory, m': Memory, lo: int, hi: int, n: Node, next: nat)
    requires NodeRep(m, n, next) && KeptOutside(m, m', lo, hi)
    requires n.addr + 8 <= lo || hi <= n.addr
    ensures NodeRep(m', n, next)
  {
  }

  /** Writing inside the eight bytes of a free node leaves every block header alone. */
  lemma KeepsLive(m: Memory, m': Memory, live: map<nat, nat>, n: Node)
    requires LiveRep(m, live) && Apart(n, live) && KeptOutside(m, m', n.addr, n.addr + 8)
    requires forall b :: b in live ==> live[b] >= HEADER_BYTES
    ensures LiveRep(m', live)
  {
  }

  /** Rewriting a node in place. */
  lemma RewriteNode(m: Memory, m': Memory, nodes: seq<Node>, i: nat, n: Node)
    requires ListRep(m, nodes) && Sorted(nodes) && i < |nodes| && n.addr == nodes[i].addr
    requires KeptOutside(m, m', n.addr, n.addr + 8) && NodeRep(m', n, Ptr(nodes, i + 1))
    ensures ListRep(m', nodes[i := n])
  {
    var nodes' := nodes[i := n];
    forall j | 0 <= j < |nodes|
      ensures RepAt(m', nodes', j)
    {
      if j != i {
        assert RepAt(m, nodes, j);
        StoreFrame(m, m', n.addr, n.addr + 8, nodes[j], Ptr(nodes, j + 1));
      }
    }
  }

  /** A list with `n` linked in behind node `k`. */
  function LinkIn(nodes: seq<Node>, k: nat, n: Node): seq<Node>
    requires k < |nodes|
  {
    nodes[..k + 1] + [n] + nodes[k + 1..]
  }

  lemma LinkInAt(nodes: seq<Node>, k: nat, n: Node, j: nat)
    requires k < |nodes| && j <= |nodes|
    ensures LinkIn(nodes, k, n)[j] == if j <= k then nodes[j] else if j == k + 1 then n else nodes[j - 1]
    ensures Ptr(LinkIn(nodes, k, n), j + 1) == if j < k then Ptr(nodes, j + 1) else if j == k then n.addr
            else Ptr(nodes, j)
  {
  }

  /** The two pointer writes of vmm_sorted_insert link `n` in behind node `k`. */
  lemma LinkRep(m: Memory, m1: Memory, m2: Memory, nodes: seq<Node>, k: nat, n: Node)
    requires ListRep(m, nodes) && k < |nodes| && n.addr in m && m[n.addr] == n.size
    requires Sorted(LinkIn(nodes, k, n))
    requires Stored(m, nodes[k].addr + 4, n.addr, m1) && Stored(m1, n.addr + 4, Ptr(nodes, k + 1), m2)
    ensures ListRep(m2, LinkIn(nodes, k, n))
  {
    var all := LinkIn(nodes, k, n);
    forall j | 0 <= j < |all|
      ensures RepAt(m2, all, j)
    {
      LinkRepAt(m, m1, m2, nodes, k, n, j);
    }
  }

  lemma LinkRepAt(m: Memory, m1: Memory, m2: Memory, nodes: seq<Node>, k: nat, n: Node, j: nat)
    requires ListRep(m, nodes) && k < |nodes| && n.addr in m && m[n.addr] == n.size
    requires Sorted(LinkIn(nodes, k, n)) && j <= |nodes|
    requires Stored(m, nodes[k].addr + 4, n.addr, m1) && Stored(m1, n.addr + 4, Ptr(nodes, k + 1), m2)
    ensures NodeRep(m2, LinkIn(nodes, k, n)[j], Ptr(LinkIn(nodes, k, n), j + 1))
  {
    var all := LinkIn(nodes, k, n);
    LinkInAt(nodes, k, n, j);
    LinkInAt(nodes, k, n, k);
    LinkInAt(nodes, k, n, k + 1);
    if j <= k {
      assert RepAt(m, nodes, j);
      assert all[j].End() <= all[k + 1].addr;
      assert j < k ==> all[j].End() <= all[k].addr;
    } else if j > k + 1 {
      assert RepAt(m, nodes, j - 1);
      assert all[k].End() <= all[j].addr && all[k + 1].End() <= all[j].addr;
    } else {
      assert all[k].End() <= all[k + 1].addr;
    }
  }

  /** Nodes `k` and `k + 1` fused, the rest as it was. */
  function Fuse(nodes: seq<Node>, k: nat): seq<Node>
    requires k + 1 < |nodes|
  {
    nodes[..k] + [Join(nodes[k], nodes[k + 1])] + nodes[k + 2..]
  }

  lemma FuseAt(nodes: seq<Node>, k: nat, j: nat)
    requires k + 1 < |nodes| && j < |nodes| - 1
    ensures Fuse(nodes, k)[j] == if j < k then nodes[j] else if j == k then Join(nodes[k], nodes[k + 1])
            else nodes[j + 1]
    ensures Ptr(Fuse(nodes, k), j + 1) == if j < k then Ptr(nodes, j + 1) else Ptr(nodes, j + 2)
  {
  }

  lemma FuseRep(m: Memory, m': Memory, nodes: seq<Node>, k: nat)
    requires ListRep(m, nodes) && Sorted(nodes) && k + 1 < |nodes|
    requires KeptOutside(m, m', nodes[k].addr, nodes[k].addr + 8)
    requires NodeRep(m', Join(nodes[k], nodes[k + 1]), Ptr(nodes, k + 2))
    ensures ListRep(m', Fuse(nodes, k))
  {
    var all := Fuse(nodes, k);
    forall j | 0 <= j < |all|
      ensures RepAt(m', all, j)
    {
      FuseAt(nodes, k, j);
      if j != k {
        var o := if j < k then j else j + 1;
        assert RepAt(m, nodes, o);
        StoreFrame(m, m', nodes[k].addr, nodes[k].addr + 8, nodes[o], Ptr(nodes, o + 1));
      }
    }
  }

  lemma FuseKeepsApart(nodes: seq<Node>, live: map<nat, nat>, k: nat, i: nat)
    requires k + 1 < |nodes| && nodes[k].End() == nodes[k + 1].addr && i < |Fuse(nodes, k)|
    requires forall j :: 0 <= j < |nodes| ==> Apart(nodes[j], live)
    requires forall b :: b in live ==> live[b] >= HEADER_BYTES
    ensures Apart(Fuse(nodes, k)[i], live)
  {
    FuseAt(nodes, k, i);
    assert Apart(nodes[k], live) && Apart(nodes[k + 1], live);
  }

  lemma FuseKeepsOrder(nodes: seq<Node>, k: nat)
    requires Sorted(nodes) && k + 1 < |nodes| && nodes[k].End() == nodes[k + 1].addr
    requires forall i :: 0 <= i < k ==> Gap(nodes, i)
    ensures Sorted(Fuse(nodes, k)) && Fuse(nodes, k)[0].addr == nodes[0].addr
    ensures forall i :: 0 <= i < k ==> Gap(Fuse(nodes, k), i)
  {
    var all := Fuse(nodes, k);
    assert forall i :: 0 <= i < k ==> all[i] == nodes[i];
    assert forall i :: k < i < |all| ==> all[i] == nodes[i + 1];
    assert all[k].addr == nodes[k].addr && all[k].End() == nodes[k + 1].End();
    assert forall i :: 0 <= i < k ==> Gap(nodes, i) == Gap(all, i);
  }

  lemma {:induction false} FuseStep(nodes: seq<Node>, k: nat)
    requires k + 1 < |nodes| && nodes[k].End() == nodes[k + 1].addr
    requires forall i :: 0 <= i < k ==> Gap(nodes, i)
    ensures Merge(Fuse(nodes, k)) == Merge(nodes)
    decreases k
  {
    if k == 0 {
      assert Fuse(nodes, 0) == [Join(nodes[0], nodes[1])] + nodes[2..];
    } else {
      var rest := nodes[1..];
      assert forall i :: 0 <= i < k - 1 ==> Gap(rest, i) == Gap(nodes, i + 1);
      FuseStep(rest, k - 1);
      assert Fuse(nodes, k)[1..] == Fuse(rest, k - 1);
      assert Gap(nodes, 0);
    }
  }

  // ---------- The loop of vmm_merge_free_block ----------

  /** Node `k` is the one under inspection and the nodes before it no longer touch. */
  ghost predicate MergeState(m: Memory, cur: seq<Node>, live: map<nat, nat>, k: nat) {
    && k < |cur| && 0 < cur[0].addr && Sorted(cur)
    && ListRep(m, cur) && LiveRep(m, live)
    && (forall b :: b in live ==> live[b] >= HEADER_BYTES)
    && (forall i :: 0 <= i < |cur| ==> Apart(cur[i], live))
    && (forall i :: 0 <= i < k ==> Gap(cur, i))
  }

  lemma MergeReads(m: Memory, cur: seq<Node>, live: map<nat, nat>, k: nat)
    requires MergeState(m, cur, live, k)
    ensures NodeRep(m, cur[k], Ptr(cur, k + 1))
    ensures m[cur[k].addr + 4] != 0 <==> k + 1 < |cur|
    ensures k + 1 < |cur| ==> NodeRep(m, cur[k + 1], Ptr(cur, k + 2)) && cur[k].addr + 8 <= cur[k + 1].addr
    ensures k + 1 < |cur| && cur[k].End() != cur[k + 1].addr ==> MergeState(m, cur, live, k + 1)
    ensures k + 1 == |cur| ==> Coalesced(cur)
  {
    assert RepAt(m, cur, k);
    if k + 1 < |cur| {
      assert RepAt(m, cur, k + 1);
      assert cur[k].End() <= cur[k + 1].addr;
    }
  }

  lemma MergeStateReps(m: Memory, cur: seq<Node>, live: map<nat, nat>, k: nat)
    requires MergeState(m, cur, live, k)
    ensures ListRep(m, cur) && LiveRep(m, live)
  {
  }

  lemma MergeFuses(m: Memory, m': Memory, cur: seq<Node>, live: map<nat, nat>, k: nat)
    requires MergeState(m, cur, live, k) && k + 1 < |cur| && cur[k].End() == cur[k + 1].addr
    requires KeptOutside(m, m', cur[k].addr, cur[k].addr + 8)
    requires NodeRep(m', Join(cur[k], cur[k + 1]), Ptr(cur, k + 2))
    ensures MergeState(m', Fuse(cur, k), live, k)
    ensures Merge(Fuse(cur, k)) == Merge(cur)
    ensures |Fuse(cur, k)| == |cur| - 1 && Fuse(cur, k)[k].addr == cur[k].addr
  {
    FuseRep(m, m', cur, k);
    FuseStep(cur, k);
    FuseKeepsOrder(cur, k);
    forall i | 0 <= i < |Fuse(cur, k)|
      ensures Apart(Fuse(cur, k)[i], live)
    {
      FuseKeepsApart(cur, live, k, i);
    }
    KeepsLive(m, m', live, cur[k]);
  }

  lemma ListReads(m: Memory, nodes: seq<Node>, k: nat)
    requires ListRep(m, nodes) && k < |nodes| && Sorted(nodes) && 0 < nodes[0].addr
    ensures NodeRep(m, nodes[k], Ptr(nodes, k + 1)) && nodes[k].addr > 0
    ensures m[nodes[k].addr + 4] != 0 <==> k + 1 < |nodes|
  {
    assert RepAt(m, nodes, k);
    assert k == 0 || nodes[0].End() <= nodes[k].addr;
    if k + 1 < |nodes| {
      assert nodes[0].End() <= nodes[k + 1].addr;
    }
  }

  lemma NodeReads(m: Memory, n: Node, next: nat)
    requires NodeRep(m, n, next)
    ensures n.addr in m && m[n.addr] == n.size && n.addr + 4 in m && m[n.addr + 4] == next
  {
  }

  lemma FirstFitStep(nodes: seq<Node>, need: nat, i: nat)
    requires i < |nodes|
    ensures FirstFit(nodes, need, i) == if nodes[i].size > need then i else FirstFit(nodes, need, i + 1)
  {
  }

  /** Everything kfree needs before it relinks: the freed header already rewritten as a node. */
  lemma FreeReady(m: Memory, m': Memory, h: Heap, b: nat)
    requires Inv(h) && ListRep(m, h.nodes) && LiveRep(m, h.live)
    requires b in h.live && h.live[b] >= NODE_BYTES && Stored(m, b, FreedNode(h, b).size, m')
    ensures ListRep(m', h.nodes) && LiveRep(m', h.live - {b})
  {
    forall i | 0 <= i < |h.nodes|
      ensures RepAt(m', h.nodes, i)
    {
      assert RepAt(m, h.nodes, i) && Apart(h.nodes[i], h.live);
      StoreFrame(m, m', b, b + 4, h.nodes[i], Ptr(h.nodes, i + 1));
    }
  }

  /** The list of a tiled heap is ready to be merged from its head. */
  lemma TiledMerges(m: Memory, h: Heap)
    requires Tiled(h) && ListRep(m, h.nodes) && LiveRep(m, h.live)
    ensures MergeState(m, h.nodes, h.live, 0)
  {
  }

  /** Writing a node at the end of the heap disturbs nothing in it. */
  lemma PageBehind(m: Memory, m': Memory, h: Heap)
    requires Inv(h) && ListRep(m, h.nodes) && LiveRep(m, h.live) && KeptOutside(m, m', h.end, h.end + 8)
    ensures ListRep(m', h.nodes) && LiveRep(m', h.live)
  {
    forall i | 0 <= i < |h.nodes|
      ensures RepAt(m', h.nodes, i)
    {
      assert RepAt(m, h.nodes, i);
      StoreFrame(m, m', h.end, h.end + 8, h.nodes[i], Ptr(h.nodes, i + 1));
    }
  }

  lemma AppendRep(m: Memory, m': Memory, h: Heap)
    requires Inv(h) && ListRep(m, h.nodes) && LiveRep(m, h.live)
    requires NodeRep(m, Node(h.end, PAGE_FRAME_SIZE - NODE_BYTES), 0)
    requires Stored(m, h.nodes[|h.nodes| - 1].addr + 4, h.end, m')
    ensures ListRep(m', h.nodes + [Node(h.end, PAGE_FRAME_SIZE - NODE_BYTES)]) && LiveRep(m', h.live)
  {
    var page := Node(h.end, PAGE_FRAME_SIZE - NODE_BYTES);
    var last := h.nodes[|h.nodes| - 1];
    var nodes' := h.nodes + [page];
    assert last.End() <= h.end && Apart(last, h.live);
    KeepsLive(m, m', h.live, last);
    forall i | 0 <= i < |nodes'|
      ensures RepAt(m', nodes', i)
    {
      if i == |h.nodes| {
        StoreFrame(m, m', last.addr + 4, last.addr + 8, page, 0);
      } else {
        assert RepAt(m, h.nodes, i);
        if i < |h.nodes| - 1 {
          assert h.nodes[i].End() <= last.addr;
          StoreFrame(m, m', last.addr + 4, last.addr + 8, h.nodes[i], Ptr(h.nodes, i + 1));
        }
      }
    }
  }

  lemma CarveRep(m: Memory, m1: Memory, m2: Memory, h: Heap, i: nat, need: nat)
    requires Inv(h) && ListRep(m, h.nodes) && LiveRep(m, h.live)
    requires i < |h.nodes| && HEADER_BYTES <= need < h.nodes[i].size
    requires Stored(m, h.nodes[i].addr, h.nodes[i].size - need, m1)
    requires Stored(m1, h.nodes[i].End() - need, need, m2)
    ensures ListRep(m2, Carve(h, i, need).nodes) && LiveRep(m2, Carve(h, i, need).live)
  {
    var n := Node(h.nodes[i].addr, h.nodes[i].size - need);
    assert RepAt(m, h.nodes, i) && Apart(h.nodes[i], h.live);
    RewriteNode(m, m1, h.nodes, i, n);
    KeepsLive(m, m1, h.live, h.nodes[i]);
    HeaderInGap(m1, m2, h, i, need);
  }

  lemma HeaderInGap(m1: Memory, m2: Memory, h: Heap, i: nat, need: nat)
    requires Inv(h) && i < |h.nodes| && HEADER_BYTES <= need < h.nodes[i].size
    requires ListRep(m1, Carve(h, i, need).nodes) && LiveRep(m1, h.live)
    requires Stored(m1, h.nodes[i].End() - need, need, m2)
    ensures ListRep(m2, Carve(h, i, need).nodes) && LiveRep(m2, Carve(h, i, need).live)
  {
    var b := h.nodes[i].End() - need;
    var nodes' := Carve(h, i, need).nodes;
    assert Apart(h.nodes[i], h.live);
    forall j | 0 <= j < |nodes'|
      ensures RepAt(m2, nodes', j)
    {
      assert RepAt(m1, nodes', j);
      assert j < i ==> h.nodes[j].End() <= h.nodes[i].addr;
      assert i < j ==> h.nodes[i].End() <= h.nodes[j].addr;
      StoreFrame(m1, m2, b, b + 4, nodes'[j], Ptr(nodes', j + 1));
    }
  }

  // ---------- The allocator ----------

  class KernelHeap {
    var mem: Memory
    var head: nat       // kheap_head
    var start: nat      // kheap_start
    var end: nat        // kheap_end
    var stackEnd: nat   // kheap_stack_end, the growth limit
    ghost var heap: Heap

    ghost predicate Valid()
      reads this
    {
      && Inv(heap)
      && heap.start == start == head && heap.end == end
      && ListRep(mem, heap.nodes) && LiveRep(mem, heap.live)
      && stackEnd <= KHEAP_BLOCK_START && PAGE_FRAME_SIZE <= end <= stackEnd + PAGE_FRAME_SIZE
    }

    /** vmm_kheap_list_init. */
    constructor (heapStart: nat, stackEnd: nat)
      requires 0 < heapStart <= stackEnd <= KHEAP_BLOCK_START
      ensures Valid() && heap == Init(heapStart) && this.stackEnd == stackEnd
    {
      start, end := heapStart, heapStart + PAGE_FRAME_SIZE;
      head := heapStart;
      this.stackEnd := stackEnd;
      mem := map[heapStart := PAGE_FRAME_SIZE - NODE_BYTES, heapStart + 4 := 0];
      heap := Init(heapStart);
      new;
      assert forall x :: heap.start <= x < heap.end ==> InNode(heap.nodes[0], x);
    }

    /** One machine store: every word sharing a byte with the stored one is lost. */
    method StoreWord(a: nat, v: nat)
      modifies this`mem
      ensures Stored(old(mem), a, v, mem)
    {
      mem := (mem - {a - 3, a - 2, a - 1, a + 1, a + 2, a + 3})[a := v];
    }

    /** Both fields of the node at `a` rewritten. */
    method StoreNode(a: nat, size: nat, next: nat)
      modifies this`mem
      ensures KeptOutside(old(mem), mem, a, a + 8) && NodeRep(mem, Node(a, size), next)
    {
      StoreWord(a, size);
      StoreWord(a + 4, next);
    }

    /** vmm_merge_free_block, from the head of the list. */
    method MergeFreeBlock(ghost nodes: seq<Node>, ghost live: map<nat, nat>)
      requires |nodes| > 0 && head == nodes[0].addr && MergeState(mem, nodes, live, 0)
      modifies this`mem
      ensures ListRep(mem, Merge(nodes)) && LiveRep(mem, live)
    {
      hide MergeState, Merge, ListRep, LiveRep, Fuse, KeptOutside, Sorted, Coalesced;
      var node: nat := head;
      ghost var merged := Merge(nodes);
      ghost var cur := nodes;
      ghost var k := 0;
      MergeReads(mem, cur, live, k);
      while mem[node + 4] != 0
        invariant k < |cur| && node == cur[k].addr && node in mem && node + 4 in mem
        invariant MergeState(mem, cur, live, k)
        invariant Merge(cur) == merged
        decreases |cur|, |cur| - k
      {
        MergeReads(mem, cur, live, k);
        var next: nat := mem[node + 4];
        var nodeEnd := node + mem[node] + NODE_BYTES;
        if nodeEnd == next {
          ghost var m := mem;
          StoreNode(node, mem[node] + mem[next] + NODE_BYTES, mem[next + 4]);
          MergeFuses(m, mem, cur, live, k);
          cur := Fuse(cur, k);
        } else {
          node := next;
          k := k + 1;
        }
        MergeReads(mem, cur, live, k);
      }
      MergeReads(mem, cur, live, k);
      MergeIdempotent(cur);
      MergeStateReps(mem, cur, live, k);
    }

    /** vmm_sorted_insert: links the node already written at `inserted` into the list. */
    method SortedInsert(inserted: nat, ghost nodes: seq<Node>, ghost live: map<nat, nat>, ghost n: Node)
      requires |nodes| > 0 && head == nodes[0].addr > 0 && Sorted(nodes) && ListRep(mem, nodes)
      requires inserted == n.addr && n.addr in mem && mem[n.addr] == n.size
      requires Sorted(Insert(nodes, n)) && LiveRep(mem, live)
      requires forall b :: b in live ==> live[b] >= HEADER_BYTES
      requires Apart(n, live) && forall i :: 0 <= i < |nodes| ==> Apart(nodes[i], live)
      modifies this`mem
      ensures ListRep(mem, Insert(nodes, n)) && LiveRep(mem, live)
    {
      hide ListRep, LiveRep, Sorted, Apart;
      var p: nat := head;
      ghost var k := 0;
      ListReads(mem, nodes, 0);
      while mem[p + 4] != 0 && !(mem[p + 4] > inserted)
        invariant k < |nodes| && p == nodes[k].addr && NodeRep(mem, nodes[k], Ptr(nodes, k + 1))
        invariant mem[p + 4] != 0 <==> k + 1 < |nodes|
        invariant InsertionPoint(nodes, n.addr, k + 1) == InsertionPoint(nodes, n.addr, 1)
        invariant mem == old(mem)
        decreases |nodes| - k
      {
        p := mem[p + 4];
        k := k + 1;
        ListReads(mem, nodes, k);
      }
      assert Insert(nodes, n) == LinkIn(nodes, k, n);
      LinkBehind(p, inserted, nodes, live, k, n);
    }

    /** The end of vmm_sorted_insert: two pointers are written. */
    method LinkBehind(p: nat, inserted: nat, ghost nodes: seq<Node>, ghost live: map<nat, nat>, ghost k: nat,
                      ghost n: Node)
      requires k < |nodes| && p == nodes[k].addr && ListRep(mem, nodes) && NodeRep(mem, nodes[k], Ptr(nodes, k + 1))
      requires inserted == n.addr && n.addr in mem && mem[n.addr] == n.size
      requires Sorted(LinkIn(nodes, k, n)) && LiveRep(mem, live)
      requires forall b :: b in live ==> live[b] >= HEADER_BYTES
      requires Apart(n, live) && Apart(nodes[k], live)
      modifies this`mem
      ensures ListRep(mem, LinkIn(nodes, k, n)) && LiveRep(mem, live)
    {
      hide ListRep, LiveRep, Sorted, Apart, LinkIn;
      var tmp := mem[p + 4];
      StoreWord(p + 4, inserted);
      KeepsLive(old(mem), mem, live, nodes[k]);
      ghost var m1 := mem;
      StoreWord(inserted + 4, tmp);
      KeepsLive(m1, mem, live, n);
      LinkRep(old(mem), m1, mem, nodes, k, n);
    }

    /** vmm_get_node: NULL when no node has more than `need` bytes; `prev` trails behind. */
    method GetNode(need: nat, prev0: nat) returns (node: nat, prev: nat)
      requires Valid()
      ensures node == Ptr(heap.nodes, FirstFit(heap.nodes, need, 0))
      ensures node == 0 <==> FirstFit(heap.nodes, need, 0) == |heap.nodes|
      ensures var i := FirstFit(heap.nodes, need, 0); prev == if i == 0 then prev0 else heap.nodes[i - 1].addr
    {
      node, prev := head, prev0;
      ghost var i := 0;
      assert Sorted(heap.nodes) && ListRep(mem, heap.nodes) && 0 < heap.nodes[0].addr == head;
      hide KernelHeap.Valid, ListRep, Sorted, FirstFit, NodeRep;
      ListReads(mem, heap.nodes, 0);
      NodeReads(mem, heap.nodes[0], Ptr(heap.nodes, 1));
      while node != 0
        invariant i <= |heap.nodes| && node == Ptr(heap.nodes, i)
        invariant node == 0 <==> i == |heap.nodes|
        invariant i < |heap.nodes| ==> NodeRep(mem, heap.nodes[i], Ptr(heap.nodes, i + 1))
        invariant FirstFit(heap.nodes, need, i) == FirstFit(heap.nodes, need, 0)
        invariant prev == if i == 0 then prev0 else heap.nodes[i - 1].addr
        decreases |heap.nodes| - i
      {
        NodeReads(mem, heap.nodes[i], Ptr(heap.nodes, i + 1));
        FirstFitStep(heap.nodes, need, i);
        if mem[node] > need {
          return;
        }
        prev, node := node, mem[node + 4];
        i := i + 1;
        if i < |heap.nodes| {
          ListReads(mem, heap.nodes, i);
        }
      }
    }

    /** The list branch of kfree, for the block whose header is at `node`. */
    method FreeBlock(node: nat)
      requires Valid() && node in heap.live && heap.live[node] >= NODE_BYTES
      modifies this`mem
      ensures ListRep(mem, Release(heap, node).nodes) && LiveRep(mem, Release(heap, node).live)
    {
      hide Merge, Sorted, Covered, Coalesced, ListRep;
      ghost var n := FreedNode(heap, node);
      ghost var inserted := heap.(nodes := Insert(heap.nodes, n), live := heap.live - {node});
      InsertKeepsTiling(heap, node);
      StoreWord(node, (mem[node] + TWO32 - NODE_BYTES) % TWO32);
      FreeReady(old(mem), mem, heap, node);
      SortedInsert(node, heap.nodes, inserted.live, n);
      TiledMerges(mem, inserted);
      MergeFreeBlock(inserted.nodes, inserted.live);
    }

    /** kfree: pointers outside the heaps are ignored, a list block goes back to the list. */
    method Free(ptr: nat)
      requires Valid()
      requires ptr < start || ptr >= KHEAP_BLOCK_START + PAGE_FRAME_SIZE ||
               (ptr >= HEADER_BYTES && ptr - HEADER_BYTES in heap.live && heap.live[ptr - HEADER_BYTES] >= NODE_BYTES)
      modifies this`mem, this`heap
      ensures ptr >= HEADER_BYTES && LiveNode(old(heap), ptr - HEADER_BYTES) ==>
                heap.live == old(heap).live - {ptr - HEADER_BYTES}
      ensures Valid() && Arena(heap, stackEnd) == Exec(Arena(old(heap), stackEnd), Op.Free(ptr))
    {
      assert |heap.nodes| > 0;
      hide Inv, ListRep, LiveRep, Merge, Insert;
      if ptr >= HEADER_BYTES && LiveNode(heap, ptr - HEADER_BYTES) {
        LivePointer(heap, ptr - HEADER_BYTES);
      }
      if ptr < start || ptr >= KHEAP_BLOCK_START + PAGE_FRAME_SIZE {
        return;
      }
      if ptr > end {
        assert false;  // a pointer into the list's part of memory is not a page block
      }
      ReleaseKeepsInvIff(heap, ptr - HEADER_BYTES);
      FreeBlock(ptr - HEADER_BYTES);
      heap := Release(heap, ptr - HEADER_BYTES);
    }

    /** The last node of the list, found by walking it. */
    method LastNode() returns (tail: nat)
      requires Valid()
      ensures tail == heap.nodes[|heap.nodes| - 1].addr
    {
      tail := head;
      ghost var k := 0;
      assert Sorted(heap.nodes) && ListRep(mem, heap.nodes) && 0 < heap.nodes[0].addr == head;
      hide Inv, ListRep, LiveRep, Sorted;
      ListReads(mem, heap.nodes, 0);
      while mem[tail + 4] != 0
        invariant k < |heap.nodes| && tail == heap.nodes[k].addr
        invariant NodeRep(mem, heap.nodes[k], Ptr(heap.nodes, k + 1))
        invariant mem[tail + 4] != 0 <==> k + 1 < |heap.nodes|
        decreases |heap.nodes| - k
      {
        tail := mem[tail + 4];
        k := k + 1;
        ListReads(mem, heap.nodes, k);
      }
    }

    /** One page behind the heap is written as a node and linked behind the last one. */
    method AppendPage()
      requires Valid() && end <= stackEnd
      modifies this`mem
      ensures ListRep(mem, heap.nodes + [Node(end, PAGE_FRAME_SIZE - NODE_BYTES)]) && LiveRep(mem, heap.live)
    {
      StoreNode(end, PAGE_FRAME_SIZE - NODE_BYTES, 0);
      PageBehind(old(mem), mem, heap);
      var tmp := LastNode();
      hide Inv, ListRep, LiveRep;
      ghost var m1 := mem;
      StoreWord(tmp + 4, end);
      AppendRep(m1, mem, heap);
    }

    /** The body of the growth loop: the page is appended and the list merged. */
    method GrowHeap()
      requires Valid() && end <= stackEnd
      modifies this`mem, this`heap, this`end
      ensures Valid() && heap == Grow(old(heap)) && end == old(end) + PAGE_FRAME_SIZE
    {
      ghost var page := Node(end, PAGE_FRAME_SIZE - NODE_BYTES);
      ghost var longer := heap.(nodes := heap.nodes + [page], end := end + PAGE_FRAME_SIZE);
      AppendPageKeepsTiling(heap);
      GrowKeepsInv(heap);
      assert longer.nodes[0].addr == head;
      AppendPage();
      hide Inv, Tiled, ListRep, LiveRep, MergeState, Merge;
      end := end + PAGE_FRAME_SIZE;
      TiledMerges(mem, longer);
      MergeFreeBlock(longer.nodes, longer.live);
      heap := Grow(heap);
    }

    /**
      vmm_list_alloc.  NULL only when the heap may not grow any further.  The heap stays
      consistent unless adding the header to the request wraps around.
    */
    method ListAlloc(request: nat) returns (p: nat)
      requires Valid()
      modifies this`mem, this`heap, this`end
      ensures (heap, if p == 0 then None else Some(p)) == Alloc(old(heap), Need(request), stackEnd)
      ensures p == 0 <==> !CanServe(old(heap), Need(request), stackEnd)
      ensures p != 0 && request + HEADER_BYTES < TWO32 ==>
                p >= HEADER_BYTES && heap.live == old(heap).live[p - HEADER_BYTES := request + HEADER_BYTES]
      ensures p == 0 ==> end > stackEnd && !SomeNodeFits(heap.nodes, Need(request))
      ensures request + HEADER_BYTES < TWO32 ==> Valid()
    {
      hide Inv, ListRep, LiveRep, Grow, Carve;
      AllocFailsIff(heap, Need(request), stackEnd);
      AllocKeepsInvIff(heap, Need(request), stackEnd);
      var size := (request + HEADER_BYTES) % TWO32;
      var node, prev := GetNode(size, 0);
      while node == 0
        invariant Valid() && node == Ptr(heap.nodes, FirstFit(heap.nodes, size, 0))
        invariant node == 0 <==> FirstFit(heap.nodes, size, 0) == |heap.nodes|
        invariant Alloc(heap, size, stackEnd) == Alloc(old(heap), size, stackEnd)
        decreases stackEnd + PAGE_FRAME_SIZE - end
      {
        if end > stackEnd {
          return 0;
        }
        GrowHeap();
        node, prev := GetNode(size, prev);
      }
      p := TakeFrom(node, prev, size);
    }

    /** The tail of vmm_list_alloc once a node with enough room is known. */
    method TakeFrom(node: nat, prev: nat, size: nat) returns (p: nat)
      requires Valid() && FirstFit(heap.nodes, size, 0) < |heap.nodes|
      requires node == heap.nodes[FirstFit(heap.nodes, size, 0)].addr
      modifies this`mem, this`heap
      ensures (heap, Some(p)) == Alloc(old(heap), size, stackEnd) && p > 0
      ensures size >= HEADER_BYTES ==> Valid()
    {
      ghost var i := FirstFit(heap.nodes, size, 0);
      ListReads(mem, heap.nodes, i);
      StoreWord(node, mem[node] - size);
      ghost var m1 := mem;
      var sizePtr := node + NODE_BYTES + mem[node];
      if prev != 0 && mem[node] == 0 {
        assert false;  // the head is never consumed: its size exceeds the request strictly
      }
      StoreWord(sizePtr, size);
      if size >= HEADER_BYTES {
        CarveRep(old(mem), m1, mem, heap, i, size);
        CarveKeepsInvIff(heap, i, size);
      }
      heap := Carve(heap, i, size);
      p := sizePtr + HEADER_BYTES;
    }

    /**
      vmm_block_alloc with no page on its stack: NULL once the heaps have met, else one more
      page below the page-block heap.  The list is not touched.
    */
    method BlockAlloc() returns (page: nat)
      requires Valid()
      modifies this`stackEnd
      ensures Valid() && Arena(heap, stackEnd) == Exec(Arena(heap, old(stackEnd)), PageBlock)
      ensures page == if old(stackEnd) < end then 0 else old(stackEnd) - PAGE_FRAME_SIZE
      ensures page != 0 ==> end <= old(stackEnd) == page + PAGE_FRAME_SIZE && stackEnd == page
    {
      if stackEnd < end {
        return 0;
      }
      stackEnd := stackEnd - PAGE_FRAME_SIZE;
      return stackEnd;
    }

    /** What the owner of a block may do to it: any bytes of its payload, nothing else. */
    method ClientWrites(b: nat, lo: nat, hi: nat)
      requires Valid() && b in heap.live && b + HEADER_BYTES <= lo <= hi <= b + heap.live[b]
      modifies this`mem
      ensures Valid() && heap == old(heap)
    {
      mem := map k | k in mem && (k + 4 <= lo || hi <= k) :: mem[k];
      forall i | 0 <= i < |heap.nodes|
        ensures RepAt(mem, heap.nodes, i)
      {
        assert RepAt(old(mem), heap.nodes, i) && Apart(heap.nodes[i], heap.live);
        StoreFrame(old(mem), mem, lo, hi, heap.nodes[i], Ptr(heap.nodes, i + 1));
      }
    }
  }
}
