/** Four places where allocator_boundary_tags as written departs from what
    it evidently intends, each modelled as written beside a small concrete
    heap that exhibits the difference. The allocator in BoundaryTags uses
    the corrected definitions. */
module BoundaryTagsFindings {
  import opened Wrappers
  import opened FitModes
  import opened BoundaryTagsLayout

  // ---------------------------------------------------------------------
  // mergeBlocks never adds the donor's size to the acceptor

  /** mergeBlocks as written: the donor leaves the chain but the acceptor
      keeps its old size. */
  function MergeHeadersAsWritten(h: map<nat, BlockHeader>, acceptor: nat, donor: nat): (r: map<nat, BlockHeader>)
    requires acceptor in h && donor in h
  {
    var d := h[donor];
    var h1 := h[acceptor := h[acceptor].(next := d.next)];
    if d.next.Some? && d.next.value in h1 then h1[d.next.value := h1[d.next.value].(prev := Some(acceptor))] else h1
  }

  /** Two free 64-byte blocks at 100 and 164 before an allocated one at 228:
      the arena's blocks cover [100, 292). */
  function TwoFree(): map<nat, BlockHeader>
  {
    map[100 := BlockHeader(64, false, Some(164), None, 20),
        164 := BlockHeader(64, false, Some(228), Some(100), 20),
        228 := BlockHeader(64, true, None, Some(164), 20)]
  }

  /** Merging 164 into 100 as written leaves the chain linked but the 64
      bytes at 164 belong to no block any more; the corrected merge keeps
      the tiling. */
  lemma MergeLosesBytes()
    ensures Linked(TwoFree(), [100, 164, 228]) && Tiles(View(TwoFree(), [100, 164, 228]), 100, 292)
    ensures var h' := MergeHeadersAsWritten(TwoFree(), 100, 164);
      Linked(h', [100, 228])
      && View(h', [100, 228]) == [Span(100, 64, false), Span(228, 64, true)]
      && !Tiles(View(h', [100, 228]), 100, 292)
    ensures var h' := MergeHeaders(TwoFree(), 100, 164);
      Linked(h', [100, 228])
      && View(h', [100, 228]) == [Span(100, 128, false), Span(228, 64, true)]
      && Tiles(View(h', [100, 228]), 100, 292)
  {
    var bs := [100, 164, 228];
    assert LinkedAt(TwoFree(), bs, 0) && LinkedAt(TwoFree(), bs, 1) && LinkedAt(TwoFree(), bs, 2);
    var w := MergeHeadersAsWritten(TwoFree(), 100, 164);
    assert w[100] == BlockHeader(64, false, Some(228), None, 20);
    assert w[228] == BlockHeader(64, true, None, Some(100), 20);
    assert LinkedAt(w, [100, 228], 0) && LinkedAt(w, [100, 228], 1);
    var c := MergeHeaders(TwoFree(), 100, 164);
    assert c[100] == BlockHeader(128, false, Some(228), None, 20);
    assert c[228] == BlockHeader(64, true, None, Some(100), 20);
    assert LinkedAt(c, [100, 228], 0) && LinkedAt(c, [100, 228], 1);
  }

  // ---------------------------------------------------------------------
  // initBlockMetadata never points the old successor back at the new block

  /** splitBlockAndInit as written: the new header is linked after the
      block, but the old successor's prev still names the block. */
  function SplitHeadersAsWritten(h: map<nat, BlockHeader>, a: nat, need: nat, arena: nat): (r: map<nat, BlockHeader>)
    requires a in h && need < h[a].size
  {
    var b := h[a];
    var n := a + need;
    h[a := b.(size := need, next := Some(n))][n := BlockHeader(b.size - need, false, b.next, Some(a), arena)]
  }

  /** A free 128-byte block at 100 before an allocated one at 228. */
  function BeforeSplit(): map<nat, BlockHeader>
  {
    map[100 := BlockHeader(128, false, Some(228), None, 20),
        228 := BlockHeader(64, true, None, Some(100), 20)]
  }

  /** The heap after allocating 16 bytes from the block at 100 (a 48-byte
      block, split) and then, inside deallocate, marking 228 free. */
  function AfterSplitAndFree(split: map<nat, BlockHeader>): map<nat, BlockHeader>
    requires 100 in split && 228 in split
  {
    split[100 := split[100].(isAllocated := true, parent := 20)][228 := split[228].(isAllocated := false)]
  }

  /** After the split as written, 228 still names 100 as its predecessor:
      the chain is broken, and freeing 228 does not merge it with the free
      block at 148 that ends where it starts, so two free blocks stay
      neighbours. The corrected split merges them. */
  lemma SplitLeavesStalePrev()
    ensures var h' := SplitHeadersAsWritten(BeforeSplit(), 100, 48, 20);
      h'[228].prev == Some(100) && !Linked(h', [100, 148, 228])
    ensures var h2 := AfterSplitAndFree(SplitHeadersAsWritten(BeforeSplit(), 100, 48, 20));
      !CanMergePrev(h2, 228) && !CanMergeNext(h2, 228)
      && !NoAdjacentFree(View(h2, [100, 148, 228]))
    ensures var h' := SplitHeaders(BeforeSplit(), 100, 48, 20);
      Linked(h', [100, 148, 228])
      && CanMergePrev(AfterSplitAndFree(h'), 228)
  {
    var w := SplitHeadersAsWritten(BeforeSplit(), 100, 48, 20);
    assert w[228] == BlockHeader(64, true, None, Some(100), 20);
    assert !LinkedAt(w, [100, 148, 228], 2);
    var h2 := AfterSplitAndFree(w);
    assert h2[100] == BlockHeader(48, true, Some(148), None, 20);
    assert h2[148] == BlockHeader(80, false, Some(228), Some(100), 20);
    assert h2[228] == BlockHeader(64, false, None, Some(100), 20);
    assert View(h2, [100, 148, 228])[1] == Span(148, 80, false);
    assert View(h2, [100, 148, 228])[2] == Span(228, 64, false);
    var c := SplitHeaders(BeforeSplit(), 100, 48, 20);
    assert c[100] == BlockHeader(48, false, Some(148), None, 20);
    assert c[148] == BlockHeader(80, false, Some(228), Some(100), 20);
    assert c[228] == BlockHeader(64, true, None, Some(148), 20);
    var bs := [100, 148, 228];
    assert LinkedAt(c, bs, 0) && LinkedAt(c, bs, 1) && LinkedAt(c, bs, 2);
    assert AfterSplitAndFree(c)[148] == c[148];
  }

  // ---------------------------------------------------------------------
  // The constructor never writes the first header's allocated bit and parent

  /** The first header as the constructor writes it over memory it never
      cleared: size, next and prev are set, the rest is whatever was there. */
  function FirstHeaderAsWritten(memSize: nat, junk: BlockHeader): (r: BlockHeader)
    requires BlockMetadataSize <= memSize < SizeLimit + BlockMetadataSize
  {
    junk.(size := memSize - BlockMetadataSize, next := None, prev := None)
  }

  /** When the leftover allocated bit is set, no fit mode finds a block for
      any request, so every allocate throws bad_alloc; the corrected header
      serves every request up to the arena's size. */
  lemma StaleAllocatedBit(memSize: nat, junk: BlockHeader, first: nat, mode: FitMode, need: nat)
    requires AllocatorMetadataSize <= memSize < SizeLimit && junk.isAllocated
    ensures var hd := FirstHeaderAsWritten(memSize, junk);
      NoneChosen(mode, [Span(first, hd.size, hd.isAllocated)], need)
    ensures need <= memSize - BlockMetadataSize
      ==> IsChosen(mode, [Span(first, memSize - BlockMetadataSize, false)], need, 0)
  {
  }

  // ---------------------------------------------------------------------
  // realBlockSize wraps around for huge requests

  /** realBlockSize as written: size + 32 in a 64-bit size_t. */
  function RealBlockSizeAsWritten(size: nat): (r: nat)
    requires size < AddressLimit
  {
    (size + BlockMetadataSize) % AddressLimit
  }

  /** A request of 2^64 - 16 bytes asks as written for a 16-byte block,
      which the first free block of any arena satisfies, so allocate hands
      out a block far smaller than requested; the corrected need exceeds
      every block, so every fit mode reports failure. */
  lemma HugeRequestWraps(L: seq<Span>, mode: FitMode)
    requires MinSizes(L) && forall i | 0 <= i < |L| :: L[i].size < SizeLimit
    requires |L| >= 1 && !L[0].isAllocated
    ensures RealBlockSizeAsWritten(AddressLimit - 16) == 16
    ensures IsFirstFit(L, RealBlockSizeAsWritten(AddressLimit - 16), 0)
    ensures NoneChosen(mode, L, AddressLimit - 16 + BlockMetadataSize)
  {
    NoneChosenMeansNoFit(mode, L, AddressLimit - 16 + BlockMetadataSize);
  }
}
