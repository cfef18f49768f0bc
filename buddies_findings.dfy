/** Three places where the buddy allocator's code departs from what a buddy
    allocator evidently means to do, each shown on a state the allocator
    reaches. The allocator in BuddiesSystem is the corrected one. */
module BuddiesFindings {
  import opened Powers
  import opened Wrappers
  import opened FitModes
  import opened BuddiesLayout
  import opened BuddiesSystem

  /** get_best and get_worst as written accept a free block of exactly
      `size` bytes, although its header takes one of them. */
  predicate FitsAsWritten(b: Block, size: nat)
  {
    !b.tag.occupied && Pow2(b.tag.k) >= size
  }

  ghost predicate IsBestFitAsWritten(w: seq<Block>, size: nat, j: nat)
  {
    j < |w| && FitsAsWritten(w[j], size)
    && (forall i | 0 <= i < |w| && FitsAsWritten(w[i], size) :: w[j].tag.k <= w[i].tag.k)
    && (forall i | 0 <= i < j && FitsAsWritten(w[i], size) :: w[j].tag.k < w[i].tag.k)
  }

  ghost predicate IsWorstFitAsWritten(w: seq<Block>, size: nat, j: nat)
  {
    j < |w| && FitsAsWritten(w[j], size) && w[j].tag.k > 0
    && (forall i | 0 <= i < |w| && FitsAsWritten(w[i], size) :: w[i].tag.k <= w[j].tag.k)
    && (forall i | 0 <= i < j && FitsAsWritten(w[i], size) :: w[i].tag.k < w[j].tag.k)
  }

  /** The walk of a 64-byte area after one allocation of 10 bytes. */
  function AfterOneAllocation(): seq<Block>
  {
    [Block(0, Tag(true, 4)), Block(16, Tag(false, 4)), Block(32, Tag(false, 5))]
  }

  /** On that walk a best-fit request for 16 bytes gets, as written, the
      16-byte block at offset 16, whose last usable byte would be the header
      of the block at 32; the corrected test picks the 32-byte block. */
  lemma BestFitOverrun()
    ensures IsBestFitAsWritten(AfterOneAllocation(), 16, 1)
    ensures Pow2(AfterOneAllocation()[1].tag.k) - BlockHeaderSize < 16
    ensures IsBestFit(AfterOneAllocation(), 16, 2)
  {
    var w := AfterOneAllocation();
    assert Pow2(4) == 16 && Pow2(5) == 32;
  }

  /** The walk of a 64-byte area after allocating 10 bytes and then 20. */
  function AfterTwoAllocations(): seq<Block>
  {
    [Block(0, Tag(true, 4)), Block(16, Tag(false, 4)), Block(32, Tag(true, 5))]
  }

  /** On that walk a worst-fit request for 16 bytes gets, as written, the
      16-byte block at offset 16, which cannot hold 16 bytes after its
      header; with the corrected test no block fits and the request fails. */
  lemma WorstFitOverrun()
    ensures IsWorstFitAsWritten(AfterTwoAllocations(), 16, 1)
    ensures Pow2(AfterTwoAllocations()[1].tag.k) - BlockHeaderSize < 16
    ensures forall i | 0 <= i < |AfterTwoAllocations()| :: !Fits(AfterTwoAllocations()[i], 16)
  {
    assert Pow2(4) == 16 && Pow2(5) == 32;
  }

  /** The walk reached from AfterOneAllocation by a first-fit allocation of
      20 bytes: the free 32-byte block at 32 is taken whole. */
  lemma TwoAllocationsWalk()
    ensures IsFirstFit(AfterOneAllocation(), 20, 2)
    ensures AllocatedWalk(AfterOneAllocation(), 2, 20) == AfterTwoAllocations()
    ensures Info(AfterTwoAllocations()) == [BlockInfo(16, true), BlockInfo(16, false), BlockInfo(32, true)]
  {
    assert Pow2(4) == 16 && Pow2(5) == 32;
    assert SplitTarget(5, 20) == 5;
    assert Buddies(32, 5, 5) == [];
  }

  /** The walk reached from a fresh 64-byte area by allocating 10 bytes. */
  lemma OneAllocationWalk()
    ensures AllocatedWalk([Block(0, Tag(false, 6))], 0, 10) == AfterOneAllocation()
    ensures Info(AfterOneAllocation()) == [BlockInfo(16, true), BlockInfo(16, false), BlockInfo(32, false)]
  {
    assert Pow2(6) == 64 && Pow2(5) == 32 && Pow2(4) == 16;
    assert SplitTarget(6, 10) == 4;
    assert Buddies(0, 4, 6) == [Block(16, Tag(false, 4)), Block(32, Tag(false, 5))];
  }

  /** The walk above is the one a first-fit allocator of 64 bytes reaches
      by allocating 10 bytes. */
  method OneAllocationScenario() returns (info: seq<BlockInfo>)
    ensures info == [BlockInfo(16, true), BlockInfo(16, false), BlockInfo(32, false)]
  {
    assert Pow2(6) == 64 && Pow2(7) == 128;
    FloorLog2Unique(64, 6);
    var a := new BuddyAllocator(64, 0, FirstFit);
    assert Fits(a.Layout()[0], 10);
    var r, j := a.Allocate(10);
    OneAllocationWalk();
    info := a.BlocksInfo();
  }

  /** do_deallocate_sm's range check as written: `at` may lie anywhere from
      the start of the allocator's memory to one byte past its end. */
  predicate InRangeAsWritten(base: nat, memSize: nat, at: nat)
  {
    !(at < base || at > base + memSize + BlockHeaderSize)
  }

  /** The check as written lets through an address whose header would be
      the byte before the allocator's memory, and one whose header would be
      the byte after it; the corrected check only admits headers inside the
      block area, which the written check admits as well. */
  lemma RangeCheckTooWide(a: BuddyAllocator)
    requires a.Valid()
    ensures InRangeAsWritten(a.base, a.memSize, a.base) && !a.InArea(a.base)
    ensures InRangeAsWritten(a.base, a.memSize, a.base + a.memSize + 1) && !a.InArea(a.base + a.memSize + 1)
    ensures forall at: nat :: a.InArea(at) ==> InRangeAsWritten(a.base, a.memSize, at)
    ensures forall at: nat :: a.InArea(at) ==> a.Begin() <= at - BlockHeaderSize < a.base + a.memSize
  {
  }

  /** The merge loop as written: any following free block of the current
      exponent is absorbed, buddy or not. */
  function AbsorbedAsWritten(ws: seq<Block>, k: nat): (c: nat)
    ensures c <= |ws|
  {
    if |ws| > 0 && !ws[0].tag.occupied && ws[0].tag.k == k
    then 1 + AbsorbedAsWritten(ws[1..], k + 1)
    else 0
  }

  /** The walk after freeing its j-th block, as written. */
  function FreedWalkAsWritten(w: seq<Block>, j: nat): (r: seq<Block>)
    requires j < |w|
  {
    var c := AbsorbedAsWritten(w[j + 1..], w[j].tag.k);
    var k := w[j].tag.k + c;
    if k < 128 then w[..j] + [Block(w[j].offset, Tag(false, k))] + w[j + 1 + c..] else w
  }

  /** Four 16-byte blocks of a 64-byte area, the third one free. */
  function ThirdFree(): seq<Block>
  {
    [Block(0, Tag(true, 4)), Block(16, Tag(true, 4)), Block(32, Tag(false, 4)), Block(48, Tag(true, 4))]
  }

  /** Freeing the second block as written merges it with the third, which
      is not its buddy: the result is a 32-byte block at offset 16, breaking
      buddy alignment. The corrected free leaves the walk aligned. */
  lemma MisalignedMerge()
    ensures Aligned(ThirdFree())
    ensures FreedWalkAsWritten(ThirdFree(), 1)
      == [Block(0, Tag(true, 4)), Block(16, Tag(false, 5)), Block(48, Tag(true, 4))]
    ensures !Aligned(FreedWalkAsWritten(ThirdFree(), 1))
    ensures FreedWalk(ThirdFree(), 1)
      == [Block(0, Tag(true, 4)), Block(16, Tag(false, 4)), Block(32, Tag(false, 4)), Block(48, Tag(true, 4))]
    ensures Aligned(FreedWalk(ThirdFree(), 1))
  {
    var w := ThirdFree();
    assert Pow2(4) == 16 && Pow2(5) == 32;
    assert 16 % 32 != 0;
    var bad := FreedWalkAsWritten(w, 1);
    assert bad[1].offset % Pow2(bad[1].tag.k) != 0;
  }

  /** The walks a first-fit allocator of 64 bytes passes through while
      allocating 10 bytes four times and then freeing the third block. */
  lemma FourAllocationsWalks()
    ensures IsFirstFit(AfterOneAllocation(), 10, 1)
    ensures AllocatedWalk(AfterOneAllocation(), 1, 10)
      == [Block(0, Tag(true, 4)), Block(16, Tag(true, 4)), Block(32, Tag(false, 5))]
    ensures IsFirstFit([Block(0, Tag(true, 4)), Block(16, Tag(true, 4)), Block(32, Tag(false, 5))], 10, 2)
    ensures AllocatedWalk([Block(0, Tag(true, 4)), Block(16, Tag(true, 4)), Block(32, Tag(false, 5))], 2, 10)
      == [Block(0, Tag(true, 4)), Block(16, Tag(true, 4)), Block(32, Tag(true, 4)), Block(48, Tag(false, 4))]
    ensures IsFirstFit([Block(0, Tag(true, 4)), Block(16, Tag(true, 4)), Block(32, Tag(true, 4)), Block(48, Tag(false, 4))], 10, 3)
    ensures AllocatedWalk([Block(0, Tag(true, 4)), Block(16, Tag(true, 4)), Block(32, Tag(true, 4)), Block(48, Tag(false, 4))], 3, 10)
      == [Block(0, Tag(true, 4)), Block(16, Tag(true, 4)), Block(32, Tag(true, 4)), Block(48, Tag(true, 4))]
    ensures FreedWalk([Block(0, Tag(true, 4)), Block(16, Tag(true, 4)), Block(32, Tag(true, 4)), Block(48, Tag(true, 4))], 2)
      == ThirdFree()
    ensures Info(ThirdFree()) == [BlockInfo(16, true), BlockInfo(16, true), BlockInfo(16, false), BlockInfo(16, true)]
  {
    assert Pow2(5) == 32 && Pow2(4) == 16;
    assert SplitTarget(4, 10) == 4;
    assert SplitTarget(5, 10) == 4;
    assert Buddies(32, 4, 5) == [Block(48, Tag(false, 4))];
  }

  /** One first-fit allocation whose chosen block and resulting walk are
      known in advance. */
  method AllocateKnown(a: BuddyAllocator, size: nat, ghost before: seq<Block>, ghost j: nat, ghost after: seq<Block>)
    requires a.Valid() && a.fitMode == FirstFit && a.Layout() == before
    requires IsFirstFit(before, size, j) && AllocatedWalk(before, j, size) == after
    modifies a.tags
    ensures a.Valid() && a.Layout() == after
  {
    var r, j' := a.Allocate(size);
    if r.None? {
      assert false;
    }
    if j' != j {
      assert false;
    }
  }

  /** ThirdFree is reachable: a first-fit allocator of 64 bytes gets there
      by four allocations of 10 bytes and a free of the third block. */
  method ThirdFreeScenario() returns (info: seq<BlockInfo>)
    ensures info == [BlockInfo(16, true), BlockInfo(16, true), BlockInfo(16, false), BlockInfo(16, true)]
  {
    assert Pow2(6) == 64 && Pow2(7) == 128 && Pow2(4) == 16;
    FloorLog2Unique(64, 6);
    var a := new BuddyAllocator(64, 0, FirstFit);
    OneAllocationWalk();
    FourAllocationsWalks();
    var w1 := [Block(0, Tag(true, 4)), Block(16, Tag(true, 4)), Block(32, Tag(false, 5))];
    var w2 := [Block(0, Tag(true, 4)), Block(16, Tag(true, 4)), Block(32, Tag(true, 4)), Block(48, Tag(false, 4))];
    var w3 := [Block(0, Tag(true, 4)), Block(16, Tag(true, 4)), Block(32, Tag(true, 4)), Block(48, Tag(true, 4))];
    assert IsFirstFit([Block(0, Tag(false, 6))], 10, 0);
    AllocateKnown(a, 10, [Block(0, Tag(false, 6))], 0, AfterOneAllocation());
    AllocateKnown(a, 10, AfterOneAllocation(), 1, w1);
    AllocateKnown(a, 10, w1, 2, w2);
    AllocateKnown(a, 10, w2, 3, w3);
    var o := a.Deallocate(a.Begin() + 32 + BlockHeaderSize);
    assert a.Layout() == ThirdFree();
    info := a.BlocksInfo();
  }

  /** AfterTwoAllocations is reachable: a first-fit allocator of 64 bytes
      gets there by allocating 10 bytes and then 20. */
  method TwoAllocationsScenario() returns (info: seq<BlockInfo>)
    ensures info == [BlockInfo(16, true), BlockInfo(16, false), BlockInfo(32, true)]
  {
    assert Pow2(6) == 64 && Pow2(7) == 128 && Pow2(4) == 16;
    FloorLog2Unique(64, 6);
    var a := new BuddyAllocator(64, 0, FirstFit);
    OneAllocationWalk();
    TwoAllocationsWalk();
    assert IsFirstFit([Block(0, Tag(false, 6))], 10, 0);
    AllocateKnown(a, 10, [Block(0, Tag(false, 6))], 0, AfterOneAllocation());
    AllocateKnown(a, 20, AfterOneAllocation(), 2, AfterTwoAllocations());
    info := a.BlocksInfo();
  }
}
