/** allocator_boundary_tags: an arena of memSize bytes behind an 80-byte
    allocator_metadata. The arena is carved into blocks, each starting with a
    32-byte header, chained in address order through next/prev. Headers live
    in a `Heap` that several arenas may share; the ghost list `blocks` holds
    the header addresses in chain order. */
module BoundaryTags {
  import opened Wrappers
  import opened FitModes
  import opened BoundaryTagsLayout

  datatype AllocError = NotEnoughSpace | OutOfMemory | DoubleFreeAttempt

  /** allocator_test_utils::block_info. */
  datatype BlockInfo = BlockInfo(blockSize: nat, isBlockOccupied: bool)

  /** What get_blocks_info reports for one block: a free block counts its
      header twice. */
  function SpanInfo(s: Span): BlockInfo
  {
    BlockInfo(s.size + (if s.isAllocated then 0 else BlockMetadataSize), s.isAllocated)
  }

  function Info(L: seq<Span>): (r: seq<BlockInfo>)
    ensures |r| == |L|
    ensures forall i | 0 <= i < |L| :: r[i] == SpanInfo(L[i])
  {
    seq(|L|, i requires 0 <= i < |L| => SpanInfo(L[i]))
  }

  function ReportedTotal(r: seq<BlockInfo>): nat
  {
    if r == [] then 0 else r[0].blockSize + ReportedTotal(r[1..])
  }

  function FreeCount(L: seq<Span>): nat
  {
    if L == [] then 0 else (if L[0].isAllocated then 0 else 1) + FreeCount(L[1..])
  }

  /** The sizes get_blocks_info reports add up to the tiled region plus one
      header per free block. */
  lemma {:induction false} InfoTotal(L: seq<Span>, start: nat, end: nat)
    requires Tiles(L, start, end)
    ensures ReportedTotal(Info(L)) == end - start + BlockMetadataSize * FreeCount(L)
    decreases |L|
  {
    var r := Info(L);
    assert r[1..] == Info(L[1..]);
    if |L| == 1 {
      assert r[1..] == [];
      assert L[1..] == [];
    } else {
      assert Tiles(L[1..], start + L[0].size, end) by {
        forall i | 0 <= i < |L| - 2
          ensures L[1..][i + 1].addr == L[1..][i].addr + L[1..][i].size
        {
          assert L[i + 2].addr == L[i + 1].addr + L[i + 1].size;
        }
      }
      InfoTotal(L[1..], start + L[0].size, end);
    }
  }

  /** The headers at `bs` chain an arena at `base` of `memSize` bytes into
      a well-formed tiling owned by the arena. */
  ghost predicate Chain(h: map<nat, BlockHeader>, bs: seq<nat>, base: nat, memSize: nat)
  {
    AllocatorMetadataSize <= memSize < SizeLimit
    && base + AllocatorMetadataSize + memSize <= AddressLimit
    && |bs| >= 1 && bs[0] == base + AllocatorMetadataSize
    && Linked(h, bs)
    && Tiles(View(h, bs), base + AllocatorMetadataSize, base + AllocatorMetadataSize + memSize - BlockMetadataSize)
    && MinSizes(View(h, bs))
    && Owned(h, bs, base)
  }

  /** A split, whose writes turn h into h' and the list bs into bs', keeps
      the chain well formed and splits the spans. */
  lemma ChainSplit(h: map<nat, BlockHeader>, bs: seq<nat>, base: nat, memSize: nat, j: nat, need: nat,
                   h': map<nat, BlockHeader>, bs': seq<nat>)
    requires Chain(h, bs, base, memSize) && j < |bs|
    requires BlockMetadataSize <= need && need + BlockMetadataSize < h[bs[j]].size
    requires h' == SplitHeaders(h, bs[j], need, base) && bs' == SplitList(bs, j, bs[j] + need)
    ensures Chain(h', bs', base, memSize)
    ensures View(h', bs') == SplitSpans(View(h, bs), j, need)
  {
    var start := base + AllocatorMetadataSize;
    var end := start + memSize - BlockMetadataSize;
    SplitView(h, bs, start, end, j, need, base);
    SplitKeeps(View(h, bs), start, end, j, need);
  }

  /** A merge of the j-th and next block, whose writes turn h into h' and
      the list bs into bs', keeps the chain well formed and merges the spans. */
  lemma ChainMerge(h: map<nat, BlockHeader>, bs: seq<nat>, base: nat, memSize: nat, j: nat,
                   h': map<nat, BlockHeader>, bs': seq<nat>)
    requires Chain(h, bs, base, memSize) && j + 1 < |bs|
    requires h' == MergeHeaders(h, bs[j], bs[j + 1]) && bs' == MergeList(bs, j)
    ensures Chain(h', bs', base, memSize)
    ensures View(h', bs') == MergeSpans(View(h, bs), j)
  {
    var start := base + AllocatorMetadataSize;
    var end := start + memSize - BlockMetadataSize;
    MergeView(h, bs, start, end, j);
    MergeKeeps(View(h, bs), start, end, j);
  }

  lemma ChainMark(h: map<nat, BlockHeader>, bs: seq<nat>, base: nat, memSize: nat, j: nat, x: BlockHeader)
    requires Chain(h, bs, base, memSize) && j < |bs|
    requires x.size == h[bs[j]].size && x.next == h[bs[j]].next && x.prev == h[bs[j]].prev
    requires x.isAllocated ==> x.parent == base
    ensures Chain(h[bs[j] := x], bs, base, memSize)
    ensures View(h[bs[j] := x], bs) == SetAllocated(View(h, bs), j, x.isAllocated)
  {
    var start := base + AllocatorMetadataSize;
    var end := start + memSize - BlockMetadataSize;
    var L := View(h, bs);
    var h' := h[bs[j] := x];
    TilesDistinct(h, bs, start, end);
    UpdateOne(h, bs, j, x);
    UpdateOwned(h, bs, j, x, base);
    assert View(h', bs) == SetAllocated(L, j, x.isAllocated);
    SetAllocatedKeeps(L, start, end, j, x.isAllocated);
  }

  /** Every header outside [lo, hi) is still there and unchanged: what an
      arena's operations promise the other arenas sharing the heap. */
  ghost predicate SameOutside(h0: map<nat, BlockHeader>, h: map<nat, BlockHeader>, lo: nat, hi: nat)
  {
    forall a | a in h0 && !(lo <= a < hi) :: a in h && h[a] == h0[a]
  }

  lemma SameOutsideTrans(h0: map<nat, BlockHeader>, h1: map<nat, BlockHeader>, h2: map<nat, BlockHeader>, lo: nat, hi: nat)
    requires SameOutside(h0, h1, lo, hi) && SameOutside(h1, h2, lo, hi)
    ensures SameOutside(h0, h2, lo, hi)
  {
  }

  /** Every header is still there with its allocated bit unchanged: merges
      rewrite sizes and links only. */
  ghost predicate SameBits(h0: map<nat, BlockHeader>, h: map<nat, BlockHeader>)
  {
    forall a | a in h0 :: a in h && h[a].isAllocated == h0[a].isAllocated
  }

  lemma MergeBits(h: map<nat, BlockHeader>, acceptor: nat, donor: nat)
    requires acceptor in h && donor in h
    ensures SameBits(h, MergeHeaders(h, acceptor, donor))
  {
  }

  /** A listed block lies inside the tiled region of its arena. */
  lemma ChainInside(h: map<nat, BlockHeader>, bs: seq<nat>, base: nat, memSize: nat, j: nat)
    requires Chain(h, bs, base, memSize) && j < |bs|
    ensures base + AllocatorMetadataSize <= bs[j]
    ensures bs[j] + h[bs[j]].size <= base + AllocatorMetadataSize + memSize - BlockMetadataSize
    ensures BlockMetadataSize <= h[bs[j]].size
  {
    var L := View(h, bs);
    assert L[j].size == h[bs[j]].size;
    TilesAbove(L, base + AllocatorMetadataSize, base + AllocatorMetadataSize + memSize - BlockMetadataSize, j);
    TilesBelow(L, base + AllocatorMetadataSize, base + AllocatorMetadataSize + memSize - BlockMetadataSize, j);
  }

  /** Another arena whose region lies apart from [lo, hi) keeps its chain
      and its blocks when only headers inside [lo, hi) change. */
  lemma ChainFramed(h0: map<nat, BlockHeader>, h: map<nat, BlockHeader>, bs: seq<nat>, base: nat, memSize: nat, lo: nat, hi: nat)
    requires Chain(h0, bs, base, memSize) && SameOutside(h0, h, lo, hi)
    requires hi <= base + AllocatorMetadataSize || base + AllocatorMetadataSize + memSize <= lo
    ensures Chain(h, bs, base, memSize) && View(h, bs) == View(h0, bs)
  {
    forall i | 0 <= i < |bs|
      ensures bs[i] in h && h[bs[i]] == h0[bs[i]]
    {
      ChainInside(h0, bs, base, memSize, i);
    }
    forall i | 0 <= i < |bs|
      ensures LinkedAt(h, bs, i)
    {
      assert LinkedAt(h0, bs, i);
    }
    assert View(h, bs) == View(h0, bs);
  }

  /** The split writes only headers inside the arena: the block, the new
      header inside it and the block's listed successor. */
  lemma SplitOutside(h: map<nat, BlockHeader>, bs: seq<nat>, base: nat, memSize: nat, j: nat, need: nat)
    requires Chain(h, bs, base, memSize) && j < |bs| && need < h[bs[j]].size
    ensures SameOutside(h, SplitHeaders(h, bs[j], need, base), base + AllocatorMetadataSize,
                        base + AllocatorMetadataSize + memSize - BlockMetadataSize)
  {
    var lo := base + AllocatorMetadataSize;
    var hi := base + AllocatorMetadataSize + memSize - BlockMetadataSize;
    var r := SplitHeaders(h, bs[j], need, base);
    ChainInside(h, bs, base, memSize, j);
    assert LinkedAt(h, bs, j);
    if j + 1 < |bs| {
      ChainInside(h, bs, base, memSize, j + 1);
    }
    forall a | a in h && !(lo <= a < hi)
      ensures a in r && r[a] == h[a]
    {
      assert a != bs[j] && a != bs[j] + need;
      assert j + 1 < |bs| ==> a != bs[j + 1];
    }
  }

  /** The merge writes only the acceptor and the donor's listed successor. */
  lemma MergeOutside(h: map<nat, BlockHeader>, bs: seq<nat>, base: nat, memSize: nat, j: nat)
    requires Chain(h, bs, base, memSize) && j + 1 < |bs|
    ensures SameOutside(h, MergeHeaders(h, bs[j], bs[j + 1]), base + AllocatorMetadataSize,
                        base + AllocatorMetadataSize + memSize - BlockMetadataSize)
  {
    var lo := base + AllocatorMetadataSize;
    var hi := base + AllocatorMetadataSize + memSize - BlockMetadataSize;
    var r := MergeHeaders(h, bs[j], bs[j + 1]);
    ChainInside(h, bs, base, memSize, j);
    assert LinkedAt(h, bs, j + 1);
    if j + 2 < |bs| {
      ChainInside(h, bs, base, memSize, j + 2);
    }
    forall a | a in h && !(lo <= a < hi)
      ensures a in r && r[a] == h[a]
    {
      assert a != bs[j];
      assert j + 2 < |bs| ==> a != bs[j + 2];
    }
  }

  /** Create: the constructor's guard, which throws "Not enough space" for
      an arena smaller than the allocator_metadata. */
  method Create(heap: Heap, base: nat, memSize: nat, mode: FitMode) returns (r: Result<BoundaryTagsAllocator, AllocError>)
    requires memSize < SizeLimit && base + AllocatorMetadataSize + memSize <= AddressLimit
    modifies heap
    ensures r.Err? <==> memSize < AllocatorMetadataSize
    ensures r.Err? ==> r.error == NotEnoughSpace && heap.headers == old(heap.headers)
    ensures r.Ok? ==> (fresh(r.value) && r.value.heap == heap && r.value.base == base
      && r.value.memSize == memSize && r.value.fitMode == mode && r.value.Valid()
      && r.value.Layout() == [Span(base + AllocatorMetadataSize, memSize - BlockMetadataSize, false)])
  {
    if memSize < AllocatorMetadataSize {
      return Err(NotEnoughSpace);
    }
    var a := new BoundaryTagsAllocator(heap, base, memSize, mode);
    r := Ok(a);
  }

  /** The memory the headers live in. */
  class Heap {
    var headers: map<nat, BlockHeader>

    constructor(headers: map<nat, BlockHeader>)
      ensures this.headers == headers
    {
      this.headers := headers;
    }
  }

  class BoundaryTagsAllocator {
    const heap: Heap
    /** Address of the allocator_metadata. */
    const base: nat
    const memSize: nat
    var fitMode: FitMode
    ghost var blocks: seq<nat>

    /** Address of the first block header. */
    function First(): nat
    {
      base + AllocatorMetadataSize
    }

    /** End of the tiled region: the first block gets memSize minus one
        header, so the last 32 bytes of the arena are never handed out. */
    function End(): nat
    {
      base + AllocatorMetadataSize + memSize - BlockMetadataSize
    }

    /** The chain is a well-formed tiling, possibly with free neighbours. */
    ghost predicate Wellformed()
      reads this, heap
    {
      Chain(heap.headers, blocks, base, memSize)
    }

    ghost function Layout(): seq<Span>
      reads this, heap
      requires Wellformed()
    {
      View(heap.headers, blocks)
    }

    /** Between operations no two free blocks are neighbours. */
    ghost predicate Valid()
      reads this, heap
    {
      Wellformed() && NoAdjacentFree(Layout())
    }

    /** The constructor, corrected to zero the first header before filling
        it in: the whole arena but one header is a single free block. */
    constructor(heap: Heap, base: nat, memSize: nat, mode: FitMode)
      requires AllocatorMetadataSize <= memSize < SizeLimit
      requires base + AllocatorMetadataSize + memSize <= AddressLimit
      modifies heap
      ensures this.heap == heap && this.base == base && this.memSize == memSize && fitMode == mode
      ensures heap.headers == old(heap.headers)[base + AllocatorMetadataSize := BlockHeader(memSize - BlockMetadataSize, false, None, None, base)]
      ensures Valid()
      ensures Layout() == [Span(First(), memSize - BlockMetadataSize, false)]
    {
      this.heap := heap;
      this.base := base;
      this.memSize := memSize;
      fitMode := mode;
      blocks := [base + AllocatorMetadataSize];
      new;
      heap.headers := heap.headers[First() := ZeroHeader];
      InitBlockMetadata(First(), None, memSize - BlockMetadataSize);
      assert LinkedAt(heap.headers, blocks, 0);
    }

    /** On a well-formed chain, canMergeNext holds exactly when the next
        block in the list is free. */
    lemma CanMergeNextIff(j: nat)
      requires Wellformed() && j < |blocks|
      ensures CanMergeNext(heap.headers, blocks[j]) <==> j + 1 < |blocks| && !Layout()[j + 1].isAllocated
      ensures CanMergeNext(heap.headers, blocks[j]) ==> heap.headers[blocks[j]].next == Some(blocks[j + 1]) && blocks[j + 1] != 0
    {
      assert LinkedAt(heap.headers, blocks, j);
      TilesAbove(Layout(), First(), End(), j);
      if j + 1 < |blocks| {
        TilesAbove(Layout(), First(), End(), j + 1);
      }
    }

    /** On a well-formed chain, canMergePrev holds exactly when the previous
        block in the list is free. */
    lemma CanMergePrevIff(j: nat)
      requires Wellformed() && j < |blocks|
      ensures CanMergePrev(heap.headers, blocks[j]) <==> j > 0 && !Layout()[j - 1].isAllocated
      ensures CanMergePrev(heap.headers, blocks[j]) ==> heap.headers[blocks[j]].prev == Some(blocks[j - 1]) && blocks[j - 1] != 0
    {
      assert LinkedAt(heap.headers, blocks, j);
      TilesAbove(Layout(), First(), End(), j);
      if j > 0 {
        TilesAbove(Layout(), First(), End(), j - 1);
      }
    }

    /** initBlockMetadata: a null block is left alone; otherwise the block
        gets this arena as parent and the size, and, given a predecessor, is
        linked in after it. Corrected: the successor it inherits is pointed
        back at it. */
    method InitBlockMetadata(block: nat, prev: Option<nat>, size: nat)
      requires block == 0 || (block in heap.headers && (prev.Some? ==> prev.value in heap.headers))
      modifies heap
      ensures block == 0 ==> heap.headers == old(heap.headers)
      ensures block != 0 ==> heap.headers == InitHeaders(old(heap.headers), block, prev, size, base)
    {
      if block == 0 {
        return;
      }
      heap.headers := heap.headers[block := heap.headers[block].(parent := base, size := size % SizeLimit)];
      if prev.None? {
        return;
      }
      ghost var h1 := heap.headers;
      var p := prev.value;
      heap.headers := heap.headers[block := heap.headers[block].(prev := prev)];
      if heap.headers[p].next.Some? {
        heap.headers := heap.headers[block := heap.headers[block].(next := heap.headers[p].next)];
      }
      assert heap.headers == h1[block := h1[block].(prev := prev, next := if h1[p].next.Some? then h1[p].next else h1[block].next)];
      heap.headers := heap.headers[p := heap.headers[p].(next := Some(block))];
      ghost var h3 := heap.headers;
      var bn := heap.headers[block].next;
      if bn.Some? && bn.value in heap.headers {
        heap.headers := heap.headers[bn.value := heap.headers[bn.value].(prev := Some(block))];
      }
      assert heap.headers == (if bn.Some? && bn.value in h3 then h3[bn.value := h3[bn.value].(prev := Some(block))] else h3);
    }

    /** splitBlockAndInit: a block larger than `size` keeps `size` bytes and
        a new free header after them takes the rest. Callers split only when
        the rest holds a header. */
    method SplitBlockAndInit(block: nat, size: nat, ghost j: nat)
      requires Wellformed() && j < |blocks| && block == blocks[j]
      requires BlockMetadataSize <= size
      requires size < heap.headers[block].size ==> size + BlockMetadataSize < heap.headers[block].size
      modifies heap, this`blocks
      ensures old(heap.headers[block].size) <= size ==> heap.headers == old(heap.headers) && blocks == old(blocks)
      ensures old(heap.headers[block].size) > size ==> (
        heap.headers == SplitHeaders(old(heap.headers), block, size, base)
        && blocks == SplitList(old(blocks), j, block + size))
      ensures Wellformed()
      ensures old(heap.headers[block].size) > size ==> Layout() == SplitSpans(old(Layout()), j, size)
      ensures SameOutside(old(heap.headers), heap.headers, First(), End())
    {
      if heap.headers[block].size <= size {
        return;
      }
      ghost var h0 := heap.headers;
      ghost var bs0 := blocks;
      assert Layout() == View(h0, bs0);
      SplitReach(j);
      SplitOutside(h0, bs0, base, memSize, j, size);
      WriteSplit(block, size);
      blocks := SplitList(blocks, j, block + size);
      ChainSplit(h0, bs0, base, memSize, j, size, heap.headers, blocks);
    }

    /** The header writes of splitBlockAndInit: the block keeps `size`
        bytes and a fresh header at block + size, initialised by
        initBlockMetadata, takes the rest. */
    method WriteSplit(block: nat, size: nat)
      requires block in heap.headers && 0 < size < heap.headers[block].size
      requires heap.headers[block].next.Some? ==> heap.headers[block].next.value != block && heap.headers[block].next.value != block + size
      modifies heap
      ensures heap.headers == SplitHeaders(old(heap.headers), block, size, base)
    {
      ghost var h0 := heap.headers;
      var nextSize := heap.headers[block].size - size;
      heap.headers := heap.headers[block := heap.headers[block].(size := size)];
      var n := block + size;
      heap.headers := heap.headers[n := ZeroHeader];
      InitBlockMetadata(n, Some(block), nextSize);
      SplitIsInit(h0, block, size, base);
    }

    /** The successor of a listed block lies past the block. */
    lemma SplitReach(j: nat)
      requires Wellformed() && j < |blocks|
      ensures heap.headers[blocks[j]].next.Some? ==> heap.headers[blocks[j]].next.value == blocks[j] + heap.headers[blocks[j]].size
    {
      assert LinkedAt(heap.headers, blocks, j);
      if j + 1 < |blocks| {
        assert Layout()[j + 1].addr == Layout()[j].addr + Layout()[j].size;
      }
    }

    /** mergeBlocks: the lower of two neighbouring blocks absorbs the higher
        one, which leaves the chain. Corrected: the acceptor's size grows by
        the donor's size (63-bit field). Null arguments are ignored. */
    method MergeBlocks(a: nat, b: nat, ghost j: nat)
      requires Wellformed()
      requires a == 0 || b == 0 || (j + 1 < |blocks|
        && ((a == blocks[j] && b == blocks[j + 1]) || (a == blocks[j + 1] && b == blocks[j])))
      modifies heap, this`blocks
      ensures a == 0 || b == 0 ==> heap.headers == old(heap.headers) && blocks == old(blocks)
      ensures a != 0 && b != 0 ==> (
        heap.headers == MergeHeaders(old(heap.headers), old(blocks[j]), old(blocks[j + 1]))
        && blocks == MergeList(old(blocks), j))
      ensures Wellformed()
      ensures a != 0 && b != 0 ==> Layout() == MergeSpans(old(Layout()), j)
      ensures SameOutside(old(heap.headers), heap.headers, First(), End())
      ensures SameBits(old(heap.headers), heap.headers)
    {
      if a == 0 || b == 0 {
        return;
      }
      ghost var h0 := heap.headers;
      ghost var bs0 := blocks;
      assert Layout() == View(h0, bs0);
      SplitReach(j);
      assert LinkedAt(h0, blocks, j);
      var acceptor, donor := a, b;
      if a > b {
        acceptor, donor := b, a;
      }
      assert acceptor == blocks[j] && donor == blocks[j + 1];
      assert LinkedAt(h0, blocks, j + 1);
      MergeOutside(h0, bs0, base, memSize, j);
      MergeBits(h0, acceptor, donor);
      WriteMerge(acceptor, donor);
      blocks := MergeList(blocks, j);
      ChainMerge(h0, bs0, base, memSize, j, heap.headers, blocks);
    }

    /** The header writes of mergeBlocks: the acceptor takes the donor's
        bytes and successor, and that successor points back at the acceptor. */
    method WriteMerge(acceptor: nat, donor: nat)
      requires acceptor in heap.headers && donor in heap.headers
      requires heap.headers[donor].next.Some? ==> heap.headers[donor].next.value in heap.headers
      modifies heap
      ensures heap.headers == MergeHeaders(old(heap.headers), acceptor, donor)
    {
      var d := heap.headers[donor];
      heap.headers := heap.headers[acceptor := heap.headers[acceptor].(size := (heap.headers[acceptor].size + d.size) % SizeLimit, next := d.next)];
      if d.next.Some? {
        heap.headers := heap.headers[d.next.value := heap.headers[d.next.value].(prev := Some(acceptor))];
      }
    }

    /** firstfit: the first free block of at least `need` bytes. */
    method FindFirstFit(need: nat) returns (r: Option<nat>, ghost j: nat)
      requires Wellformed()
      ensures r.Some? ==> IsFirstFit(Layout(), need, j) && r.value == blocks[j]
      ensures r.None? ==> NoneChosen(FirstFit, Layout(), need)
    {
      ghost var L := Layout();
      var cur := First();
      j := 0;
      while true
        invariant j < |blocks| && cur == blocks[j]
        invariant forall i | 0 <= i < j :: !Fits(L[i], need)
        decreases |blocks| - j
      {
        assert LinkedAt(heap.headers, blocks, j);
        var hd := heap.headers[cur];
        if !hd.isAllocated && hd.size >= need {
          return Some(cur), j;
        }
        if hd.next.None? {
          return None, j;
        }
        cur := hd.next.value;
        j := j + 1;
      }
    }

    /** bestfit: the first of the smallest free blocks of at least `need`
        bytes, the running minimum starting at 2^64 - 1. */
    method FindBestFit(need: nat) returns (r: Option<nat>, ghost j: nat)
      requires Wellformed()
      ensures r.Some? ==> IsBestFit(Layout(), need, j) && r.value == blocks[j]
      ensures r.None? ==> NoneChosen(TheBestFit, Layout(), need)
    {
      ghost var L := Layout();
      var cur := First();
      var best: Option<nat> := None;
      var bestSize: nat := AddressLimit - 1;
      ghost var i := 0;
      j := 0;
      while true
        invariant i < |blocks| && cur == blocks[i]
        invariant BestSoFar(L, need, i, best.Some?, j, bestSize)
        invariant best.Some? ==> best.value == blocks[j]
        decreases |blocks| - i
      {
        assert LinkedAt(heap.headers, blocks, i);
        BestStep(L, need, i, best.Some?, j, bestSize);
        var hd := heap.headers[cur];
        if !hd.isAllocated && hd.size >= need && hd.size < bestSize {
          bestSize := hd.size;
          best := Some(cur);
          j := i;
        }
        if hd.next.None? {
          BestDone(L, need, best.Some?, j, bestSize);
          return best, j;
        }
        cur := hd.next.value;
        i := i + 1;
      }
    }

    /** worstfit: the first of the largest free blocks of at least `need`
        bytes, the running maximum starting at 0. */
    method FindWorstFit(need: nat) returns (r: Option<nat>, ghost j: nat)
      requires Wellformed()
      ensures r.Some? ==> IsWorstFit(Layout(), need, j) && r.value == blocks[j]
      ensures r.None? ==> NoneChosen(TheWorstFit, Layout(), need)
    {
      ghost var L := Layout();
      var cur := First();
      var worst: Option<nat> := None;
      var worstSize: nat := 0;
      ghost var i := 0;
      j := 0;
      while true
        invariant i < |blocks| && cur == blocks[i]
        invariant WorstSoFar(L, need, i, worst.Some?, j, worstSize)
        invariant worst.Some? ==> worst.value == blocks[j]
        decreases |blocks| - i
      {
        assert LinkedAt(heap.headers, blocks, i);
        WorstStep(L, need, i, worst.Some?, j, worstSize);
        var hd := heap.headers[cur];
        if !hd.isAllocated && hd.size >= need && hd.size > worstSize {
          worstSize := hd.size;
          worst := Some(cur);
          j := i;
        }
        if hd.next.None? {
          WorstDone(L, need, worst.Some?, j, worstSize);
          return worst, j;
        }
        cur := hd.next.value;
        i := i + 1;
      }
    }

    /** The search allocate runs under the current fit mode. */
    method FindFit(need: nat) returns (r: Option<nat>, ghost j: nat)
      requires Wellformed()
      ensures r.Some? ==> IsChosen(fitMode, Layout(), need, j) && j < |blocks| && r.value == blocks[j]
      ensures r.None? ==> NoneChosen(fitMode, Layout(), need)
    {
      match fitMode {
        case FirstFit => r, j := FindFirstFit(need);
        case TheBestFit => r, j := FindBestFit(need);
        case TheWorstFit => r, j := FindWorstFit(need);
      }
    }

    /** Setting a listed block's allocated bit; marking it allocated also
        names this arena as its parent. */
    method MarkBlock(block: nat, ghost j: nat, flag: bool)
      requires Wellformed() && j < |blocks| && block == blocks[j]
      modifies heap
      ensures heap.headers == old(heap.headers)[block := old(heap.headers)[block].(isAllocated := flag,
        parent := if flag then base else old(heap.headers)[block].parent)]
      ensures Wellformed() && Layout() == SetAllocated(old(Layout()), j, flag)
      ensures SameOutside(old(heap.headers), heap.headers, First(), End())
    {
      ghost var h0 := heap.headers;
      ChainInside(h0, blocks, base, memSize, j);
      if flag {
        heap.headers := heap.headers[block := heap.headers[block].(isAllocated := true, parent := base)];
      } else {
        heap.headers := heap.headers[block := heap.headers[block].(isAllocated := false)];
      }
      ChainMark(h0, blocks, base, memSize, j, heap.headers[block]);
    }

    /** allocate: search for a block of size + 32 bytes under the fit mode,
        fail with bad_alloc when there is none, split off the tail when it
        holds more than a header, mark the block allocated by this arena and
        return the address after its header. Corrected: size + 32 does not
        wrap around. */
    method Allocate(size: nat) returns (r: Result<nat, AllocError>, ghost j: nat)
      requires Valid() && size < AddressLimit
      modifies heap, this`blocks
      ensures Valid()
      ensures r.Err? ==> (r.error == OutOfMemory
        && heap.headers == old(heap.headers) && blocks == old(blocks)
        && NoneChosen(fitMode, old(Layout()), size + BlockMetadataSize))
      ensures r.Ok? ==> (IsChosen(fitMode, old(Layout()), size + BlockMetadataSize, j)
        && j < |blocks| && r.value == blocks[j] + BlockMetadataSize
        && Layout() == AllocLayout(old(Layout()), j, size + BlockMetadataSize))
      ensures SameOutside(old(heap.headers), heap.headers, First(), End())
    {
      var need := size + BlockMetadataSize;
      var found: Option<nat>;
      found, j := FindFit(need);
      if found.None? {
        return Err(OutOfMemory), j;
      }
      var block := found.value;
      ghost var L0 := Layout();
      if heap.headers[block].size > need + BlockMetadataSize {
        SplitBlockAndInit(block, need, j);
      }
      MarkBlock(block, j, true);
      AllocKeeps(L0, First(), End(), j, need);
      r := Ok(block + BlockMetadataSize);
    }

    /** The two merges deallocate makes after marking the block at index j
        free: with a free successor, then with a free predecessor. */
    method MergeFreed(block: nat, ghost j: nat)
      requires Wellformed() && j < |blocks| && block == blocks[j] && !Layout()[j].isAllocated
      modifies heap, this`blocks
      ensures Wellformed()
      ensures Layout() == FreeLayout(old(Layout()), j)
      ensures SameOutside(old(heap.headers), heap.headers, First(), End())
      ensures SameBits(old(heap.headers), heap.headers)
    {
      ghost var L1 := Layout();
      CanMergeNextIff(j);
      if CanMergeNext(heap.headers, block) {
        MergeBlocks(block, heap.headers[block].next.value, j);
      }
      ghost var L2 := Layout();
      assert L2 == FreeForward(L1, j) by {
        assert SetAllocated(L1, j, false) == L1;
      }
      CanMergePrevIff(j);
      if CanMergePrev(heap.headers, block) {
        assert j > 0 && !L2[j - 1].isAllocated;
        MergeBlocks(heap.headers[block].prev.value, block, j - 1);
      }
    }

    /** deallocate: a null pointer is ignored; a block that is not allocated
        by this arena is reported as a double free and left alone; otherwise
        the block is marked free and merged with a free successor, then with
        a free predecessor. */
    method Deallocate(ptr: nat) returns (r: Outcome<AllocError>, ghost j: nat)
      requires Valid()
      requires ptr != 0 ==> (ptr >= BlockMetadataSize && ptr - BlockMetadataSize in heap.headers
        && (heap.headers[ptr - BlockMetadataSize].isAllocated && heap.headers[ptr - BlockMetadataSize].parent == base
            ==> ptr - BlockMetadataSize in blocks))
      modifies heap, this`blocks
      ensures Valid()
      ensures ptr == 0 ==> r.Pass? && heap.headers == old(heap.headers) && blocks == old(blocks)
      ensures ptr != 0 && !(old(heap.headers[ptr - BlockMetadataSize].isAllocated) && old(heap.headers[ptr - BlockMetadataSize].parent) == base)
        ==> r == Fail(DoubleFreeAttempt) && heap.headers == old(heap.headers) && blocks == old(blocks)
      ensures ptr != 0 && old(heap.headers[ptr - BlockMetadataSize].isAllocated) && old(heap.headers[ptr - BlockMetadataSize].parent) == base
        ==> (r.Pass? && j < |old(blocks)| && old(blocks)[j] == ptr - BlockMetadataSize
          && Layout() == FreeLayout(old(Layout()), j))
      ensures SameOutside(old(heap.headers), heap.headers, First(), End())
      ensures ptr != 0 && r.Pass? ==> ptr - BlockMetadataSize in heap.headers && !heap.headers[ptr - BlockMetadataSize].isAllocated
    {
      j := 0;
      if ptr == 0 {
        return Pass, j;
      }
      var block := ptr - BlockMetadataSize;
      if !heap.headers[block].isAllocated || heap.headers[block].parent != base {
        return Fail(DoubleFreeAttempt), j;
      }
      j :| 0 <= j < |blocks| && blocks[j] == block;
      FreeBlock(block, j);
      r := Pass;
    }

    /** The freeing path of deallocate for the listed block at index j:
        mark it free, then merge it with its free neighbours. */
    method FreeBlock(block: nat, ghost j: nat)
      requires Valid() && j < |blocks| && block == blocks[j]
      modifies heap, this`blocks
      ensures Valid()
      ensures Layout() == FreeLayout(old(Layout()), j)
      ensures SameOutside(old(heap.headers), heap.headers, First(), End())
      ensures block in heap.headers && !heap.headers[block].isAllocated
    {
      ghost var L0 := Layout();
      ghost var h0 := heap.headers;
      MarkBlock(block, j, false);
      ghost var L1 := Layout();
      ghost var h1 := heap.headers;
      assert FreeForward(L1, j) == FreeForward(L0, j) by {
        assert SetAllocated(L1, j, false) == L1;
      }
      MergeFreed(block, j);
      SameOutsideTrans(h0, h1, heap.headers, First(), End());
      FreeKeeps(L0, First(), End(), j);
    }

    /** set_fit_mode. */
    method SetFitMode(mode: FitMode)
      modifies this`fitMode
      ensures fitMode == mode
    {
      fitMode := mode;
    }

    /** get_blocks_info: one entry per block in chain order; the sizes add up
        to the arena minus one header, plus one header per free block. */
    method BlocksInfo() returns (r: seq<BlockInfo>)
      requires Wellformed()
      ensures r == Info(Layout())
      ensures ReportedTotal(r) == memSize - BlockMetadataSize + BlockMetadataSize * FreeCount(Layout())
    {
      ghost var L := Layout();
      var cur := First();
      ghost var i := 0;
      r := [];
      while true
        invariant i < |blocks| && cur == blocks[i]
        invariant r == Info(L[..i])
        decreases |blocks| - i
      {
        assert LinkedAt(heap.headers, blocks, i);
        var hd := heap.headers[cur];
        r := r + [BlockInfo(hd.size + (if hd.isAllocated then 0 else BlockMetadataSize), hd.isAllocated)];
        assert r == Info(L[..i + 1]);
        if hd.next.None? {
          assert L[..i + 1] == L;
          break;
        }
        cur := hd.next.value;
        i := i + 1;
      }
      InfoTotal(L, First(), End());
    }
  }

  /** Freeing the same pointer twice: the first deallocate frees the block,
      the second finds its header free and reports a double free, changing
      nothing. */
  method FreeTwice(a: BoundaryTagsAllocator, ptr: nat) returns (first: Outcome<AllocError>, second: Outcome<AllocError>, ghost j: nat)
    requires a.Valid() && ptr >= BlockMetadataSize && ptr - BlockMetadataSize in a.blocks
    requires a.heap.headers[ptr - BlockMetadataSize].isAllocated && a.heap.headers[ptr - BlockMetadataSize].parent == a.base
    modifies a.heap, a`blocks
    ensures first == Pass && second == Fail(DoubleFreeAttempt)
    ensures a.Valid() && j < |old(a.blocks)| && old(a.blocks)[j] == ptr - BlockMetadataSize
    ensures a.Layout() == FreeLayout(old(a.Layout()), j)
  {
    first, j := a.Deallocate(ptr);
    ghost var k;
    second, k := a.Deallocate(ptr);
  }
}
