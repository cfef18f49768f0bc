/** The boundary-tag allocator's arena, read two ways: as the header records
    found at byte addresses (each with next, prev and parent links), and as
    the list of spans those headers describe in address order. Every
    operation of the allocator is specified on the span list; the header
    updates it performs are tied to the span list by the lemmas here. */
module BoundaryTagsLayout {
  import opened Wrappers
  import opened FitModes

  /** sizeof(allocator_metadata) on x86-64: logger*, memory_resource*,
      fit_mode (padded to 8), size_t, std::mutex (40 bytes), firstBlock. */
  const AllocatorMetadataSize: nat := 80
  /** sizeof(block_metadata): the packed size/allocated word and three
      pointers. */
  const BlockMetadataSize: nat := 32
  /** A free block carries no extra metadata. */
  const FreeMetadataSize: nat := 0
  /** The size field is 63 bits wide. */
  const SizeLimit: nat := 0x8000_0000_0000_0000
  /** Addresses and size_t values are 64 bits wide. */
  const AddressLimit: nat := 0x1_0000_0000_0000_0000

  type Size63 = n: nat | n < 0x8000_0000_0000_0000

  /** block_metadata: links are addresses, None for a null pointer; parent
      is the address of the owning arena's allocator_metadata. */
  datatype BlockHeader = BlockHeader(size: Size63, isAllocated: bool, next: Option<nat>, prev: Option<nat>, parent: nat)

  /** What a header says about the bytes it starts: `size` bytes from
      `addr`, header included. */
  datatype Span = Span(addr: nat, size: nat, isAllocated: bool)

  // ---------------------------------------------------------------------
  // The span list

  /** The spans cover [start, end) one after another. */
  ghost predicate Tiles(L: seq<Span>, start: nat, end: nat)
  {
    |L| >= 1 && L[0].addr == start
    && (forall i | 0 <= i < |L| - 1 :: L[i + 1].addr == L[i].addr + L[i].size)
    && L[|L| - 1].addr + L[|L| - 1].size == end
  }

  /** Every span holds at least a header. */
  ghost predicate MinSizes(L: seq<Span>)
  {
    forall i | 0 <= i < |L| :: L[i].size >= BlockMetadataSize
  }

  /** Free spans never sit next to each other: a free always coalesces. */
  ghost predicate NoAdjacentFree(L: seq<Span>)
  {
    forall i | 0 <= i < |L| - 1 :: L[i].isAllocated || L[i + 1].isAllocated
  }

  lemma {:induction false} TilesBelow(L: seq<Span>, start: nat, end: nat, i: nat)
    requires Tiles(L, start, end) && i < |L|
    ensures L[i].addr + L[i].size <= end
    decreases |L| - i
  {
    if i < |L| - 1 {
      TilesBelow(L, start, end, i + 1);
    }
  }

  lemma {:induction false} TilesAbove(L: seq<Span>, start: nat, end: nat, i: nat)
    requires Tiles(L, start, end) && i < |L|
    ensures start <= L[i].addr
  {
    if i > 0 {
      TilesAbove(L, start, end, i - 1);
    }
  }

  /** With non-empty spans the addresses strictly increase. */
  lemma {:induction false} TilesIncreasing(L: seq<Span>, start: nat, end: nat, i: nat, k: nat)
    requires Tiles(L, start, end) && MinSizes(L) && i < k < |L|
    ensures L[i].addr + L[i].size <= L[k].addr
    decreases k - i
  {
    if i + 1 < k {
      TilesIncreasing(L, start, end, i + 1, k);
    }
  }

  /** Two neighbouring spans together are no larger than the whole area. */
  lemma NeighboursBound(L: seq<Span>, start: nat, end: nat, j: nat)
    requires Tiles(L, start, end) && j + 1 < |L|
    ensures L[j].size + L[j + 1].size <= end - start
  {
    TilesAbove(L, start, end, j);
    TilesBelow(L, start, end, j + 1);
  }

  /** The span at j cut at `need`: the front keeps its state, the rest is a
      new free span. */
  function SplitSpans(L: seq<Span>, j: nat, need: nat): (r: seq<Span>)
    requires j < |L| && need < L[j].size
    ensures |r| == |L| + 1
  {
    L[..j] + [Span(L[j].addr, need, L[j].isAllocated), Span(L[j].addr + need, L[j].size - need, false)] + L[j + 1..]
  }

  /** The spans at j and j + 1 become one, at j's address. */
  function MergeSpans(L: seq<Span>, j: nat): (r: seq<Span>)
    requires j + 1 < |L|
    ensures |r| == |L| - 1
  {
    L[..j] + [Span(L[j].addr, L[j].size + L[j + 1].size, L[j].isAllocated)] + L[j + 2..]
  }

  function SetAllocated(L: seq<Span>, j: nat, flag: bool): (r: seq<Span>)
    requires j < |L|
    ensures |r| == |L|
  {
    L[j := L[j].(isAllocated := flag)]
  }

  /** The split test of allocate: only when more than a header would be
      left over. */
  predicate SplitsAt(s: Span, need: nat)
  {
    s.size > need + BlockMetadataSize
  }

  /** The span list after a successful allocate of `need` bytes (header
      included) from its j-th span. */
  function AllocLayout(L: seq<Span>, j: nat, need: nat): (r: seq<Span>)
    requires j < |L| && L[j].size >= need
  {
    if SplitsAt(L[j], need) then SetAllocated(SplitSpans(L, j, need), j, true)
    else SetAllocated(L, j, true)
  }

  /** The span list after a successful deallocate of its j-th span: it is
      marked free, merged with a free successor, then with a free
      predecessor. */
  function FreeLayout(L: seq<Span>, j: nat): (r: seq<Span>)
    requires j < |L|
  {
    var L2 := FreeForward(L, j);
    if j > 0 && !L2[j - 1].isAllocated then MergeSpans(L2, j - 1) else L2
  }

  lemma SplitKeeps(L: seq<Span>, start: nat, end: nat, j: nat, need: nat)
    requires Tiles(L, start, end) && MinSizes(L) && j < |L|
    requires BlockMetadataSize <= need && SplitsAt(L[j], need)
    ensures Tiles(SplitSpans(L, j, need), start, end)
    ensures MinSizes(SplitSpans(L, j, need))
  {
    var r := SplitSpans(L, j, need);
    forall i | 0 <= i < |r| - 1
      ensures r[i + 1].addr == r[i].addr + r[i].size
    {
      if i < j {
        assert r[i] == L[i] && r[i + 1] == (if i + 1 < j then L[i + 1] else r[j]);
      } else if i > j + 1 {
        assert r[i] == L[i - 1] && r[i + 1] == L[i];
      } else if i == j + 1 {
        assert r[i + 1] == L[j + 1];
      }
    }
  }

  lemma MergeKeeps(L: seq<Span>, start: nat, end: nat, j: nat)
    requires Tiles(L, start, end) && MinSizes(L) && j + 1 < |L|
    ensures Tiles(MergeSpans(L, j), start, end)
    ensures MinSizes(MergeSpans(L, j))
  {
    var r := MergeSpans(L, j);
    forall i | 0 <= i < |r| - 1
      ensures r[i + 1].addr == r[i].addr + r[i].size
    {
      if i < j {
        assert r[i] == L[i] && r[i + 1] == (if i + 1 < j then L[i + 1] else r[j]);
      } else if i > j {
        assert r[i] == L[i + 1] && r[i + 1] == L[i + 2];
      } else {
        assert r[i + 1] == L[j + 2];
      }
    }
  }

  lemma SetAllocatedKeeps(L: seq<Span>, start: nat, end: nat, j: nat, flag: bool)
    requires Tiles(L, start, end) && MinSizes(L) && j < |L|
    ensures Tiles(SetAllocated(L, j, flag), start, end)
    ensures MinSizes(SetAllocated(L, j, flag))
  {
  }

  /** Allocation keeps the spans covering the area, each at least a header,
      with no two free ones adjacent; and the chosen span now starts an
      allocated block of at least `need` bytes. */
  lemma AllocKeeps(L: seq<Span>, start: nat, end: nat, j: nat, need: nat)
    requires Tiles(L, start, end) && MinSizes(L) && NoAdjacentFree(L)
    requires j < |L| && !L[j].isAllocated && BlockMetadataSize <= need <= L[j].size
    ensures Tiles(AllocLayout(L, j, need), start, end)
    ensures MinSizes(AllocLayout(L, j, need))
    ensures NoAdjacentFree(AllocLayout(L, j, need))
    ensures AllocLayout(L, j, need)[j] == Span(L[j].addr, if SplitsAt(L[j], need) then need else L[j].size, true)
  {
    var r := AllocLayout(L, j, need);
    if SplitsAt(L[j], need) {
      SplitKeeps(L, start, end, j, need);
      SetAllocatedKeeps(SplitSpans(L, j, need), start, end, j, true);
      forall i | 0 <= i < |r| - 1
        ensures r[i].isAllocated || r[i + 1].isAllocated
      {
        if i > j + 1 {
          assert r[i] == L[i - 1] && r[i + 1] == L[i];
        } else if i == j + 1 {
          assert r[i + 1] == L[j + 1];
          assert L[j].isAllocated || L[j + 1].isAllocated;
        } else if i < j {
          assert r[i] == L[i];
        }
      }
    } else {
      SetAllocatedKeeps(L, start, end, j, true);
    }
  }

  /** The first two steps of deallocate: mark free, merge a free successor. */
  function FreeForward(L: seq<Span>, j: nat): (r: seq<Span>)
    requires j < |L|
    ensures j < |r|
  {
    var L1 := SetAllocated(L, j, false);
    if j + 1 < |L1| && !L1[j + 1].isAllocated then MergeSpans(L1, j) else L1
  }

  /** Where the spans of a merge come from. */
  lemma MergedAt(L: seq<Span>, k: nat, i: nat)
    requires k + 1 < |L| && i < |L| - 1
    ensures i < k ==> MergeSpans(L, k)[i] == L[i]
    ensures i == k ==> MergeSpans(L, k)[i] == Span(L[k].addr, L[k].size + L[k + 1].size, L[k].isAllocated)
    ensures i > k ==> MergeSpans(L, k)[i] == L[i + 1]
  {
  }

  lemma FreeForwardKeeps(L: seq<Span>, start: nat, end: nat, j: nat)
    requires Tiles(L, start, end) && MinSizes(L)
    requires j < |L|
    ensures Tiles(FreeForward(L, j), start, end) && MinSizes(FreeForward(L, j))
  {
    var L1 := SetAllocated(L, j, false);
    SetAllocatedKeeps(L, start, end, j, false);
    if j + 1 < |L1| && !L1[j + 1].isAllocated {
      MergeKeeps(L1, start, end, j);
    }
  }

  /** After the forward merge the freed span is free, everything before it
      is as it was, and no free pair follows it. */
  lemma FreeForwardShape(L: seq<Span>, j: nat)
    requires NoAdjacentFree(L) && j < |L|
    ensures var r := FreeForward(L, j);
      !r[j].isAllocated
      && (forall i | 0 <= i < j :: r[i] == L[i])
      && (forall i | j <= i < |r| - 1 :: r[i].isAllocated || r[i + 1].isAllocated)
  {
    var L1 := SetAllocated(L, j, false);
    var r := FreeForward(L, j);
    if j + 1 < |L1| && !L1[j + 1].isAllocated {
      forall i | 0 <= i < j
        ensures r[i] == L[i]
      {
        MergedAt(L1, j, i);
      }
      forall i | j <= i < |r| - 1
        ensures r[i].isAllocated || r[i + 1].isAllocated
      {
        MergedAt(L1, j, i + 1);
        if i > j {
          MergedAt(L1, j, i);
          assert L[i + 1].isAllocated || L[i + 2].isAllocated;
        } else {
          assert L[j + 1].isAllocated || L[j + 2].isAllocated;
        }
      }
    } else {
      assert r == L1;
      forall i | j <= i < |r| - 1
        ensures r[i].isAllocated || r[i + 1].isAllocated
      {
        if i > j {
          assert L[i].isAllocated || L[i + 1].isAllocated;
        }
      }
    }
  }

  lemma FreeShape(L: seq<Span>, j: nat)
    requires NoAdjacentFree(L) && j < |L|
    ensures NoAdjacentFree(FreeLayout(L, j))
  {
    var L2 := FreeForward(L, j);
    FreeForwardShape(L, j);
    var r := FreeLayout(L, j);
    if j > 0 && !L2[j - 1].isAllocated {
      assert r == MergeSpans(L2, j - 1);
      forall i | 0 <= i < |r| - 1
        ensures r[i].isAllocated || r[i + 1].isAllocated
      {
        MergedAt(L2, j - 1, i);
        MergedAt(L2, j - 1, i + 1);
        if i + 1 < j {
          assert L[i].isAllocated || L[i + 1].isAllocated;
        }
      }
    } else {
      assert r == L2;
      forall i | 0 <= i < |r| - 1
        ensures r[i].isAllocated || r[i + 1].isAllocated
      {
        if i < j - 1 {
          assert L[i].isAllocated || L[i + 1].isAllocated;
        }
      }
    }
  }

  /** Deallocation keeps the same three properties. */
  lemma FreeKeeps(L: seq<Span>, start: nat, end: nat, j: nat)
    requires Tiles(L, start, end) && MinSizes(L) && NoAdjacentFree(L)
    requires j < |L|
    ensures Tiles(FreeLayout(L, j), start, end)
    ensures MinSizes(FreeLayout(L, j))
    ensures NoAdjacentFree(FreeLayout(L, j))
  {
    var L2 := FreeForward(L, j);
    FreeForwardKeeps(L, start, end, j);
    FreeShape(L, j);
    if j > 0 && !L2[j - 1].isAllocated {
      MergeKeeps(L2, start, end, j - 1);
    }
  }

  /** Allocating from a free span and freeing the result gives back the
      span list unchanged. */
  lemma AllocThenFree(L: seq<Span>, start: nat, end: nat, j: nat, need: nat)
    requires Tiles(L, start, end) && MinSizes(L) && NoAdjacentFree(L)
    requires j < |L| && !L[j].isAllocated && BlockMetadataSize <= need <= L[j].size
    ensures FreeLayout(AllocLayout(L, j, need), j) == L
  {
    var A := AllocLayout(L, j, need);
    assert j + 1 < |L| ==> L[j + 1].isAllocated;
    assert j > 0 ==> L[j - 1].isAllocated;
    var A1 := SetAllocated(A, j, false);
    if SplitsAt(L[j], need) {
      assert A1 == SplitSpans(L, j, need);
      assert MergeSpans(A1, j) == L;
    } else {
      assert A1 == L;
    }
  }

  // ---------------------------------------------------------------------
  // Fit policies, on the span list, for a block of `need` bytes

  predicate Fits(s: Span, need: nat)
  {
    !s.isAllocated && s.size >= need
  }

  /** firstfit: the first free span of at least `need` bytes. */
  ghost predicate IsFirstFit(L: seq<Span>, need: nat, j: nat)
  {
    j < |L| && Fits(L[j], need) && forall i | 0 <= i < j :: !Fits(L[i], need)
  }

  /** bestfit: the running minimum starts at size_t(-1) and is replaced only
      by a strictly smaller size, so the earliest of the smallest fitting
      spans wins. */
  ghost predicate IsBestFit(L: seq<Span>, need: nat, j: nat)
  {
    j < |L| && Fits(L[j], need) && L[j].size < AddressLimit - 1
    && (forall i | 0 <= i < |L| && Fits(L[i], need) :: L[j].size <= L[i].size)
    && (forall i | 0 <= i < j && Fits(L[i], need) :: L[j].size < L[i].size)
  }

  /** worstfit: the running maximum starts at 0 and is replaced only by a
      strictly larger size, so the earliest of the largest fitting spans
      wins, and a fitting span of size 0 is never taken. */
  ghost predicate IsWorstFit(L: seq<Span>, need: nat, j: nat)
  {
    j < |L| && Fits(L[j], need) && L[j].size > 0
    && (forall i | 0 <= i < |L| && Fits(L[i], need) :: L[i].size <= L[j].size)
    && (forall i | 0 <= i < j && Fits(L[i], need) :: L[i].size < L[j].size)
  }

  ghost predicate IsChosen(mode: FitMode, L: seq<Span>, need: nat, j: nat)
  {
    match mode
    case FirstFit => IsFirstFit(L, need, j)
    case TheBestFit => IsBestFit(L, need, j)
    case TheWorstFit => IsWorstFit(L, need, j)
  }

  /** No span qualifies under the policy: allocate throws bad_alloc. */
  ghost predicate NoneChosen(mode: FitMode, L: seq<Span>, need: nat)
  {
    match mode
    case FirstFit => forall i | 0 <= i < |L| :: !Fits(L[i], need)
    case TheBestFit => forall i | 0 <= i < |L| && Fits(L[i], need) :: L[i].size >= AddressLimit - 1
    case TheWorstFit => forall i | 0 <= i < |L| && Fits(L[i], need) :: L[i].size == 0
  }

  /** Where the spans are at least a header and smaller than 2^63, every
      policy picks a span exactly when some span fits. */
  lemma NoneChosenMeansNoFit(mode: FitMode, L: seq<Span>, need: nat)
    requires MinSizes(L) && forall i | 0 <= i < |L| :: L[i].size < SizeLimit
    ensures NoneChosen(mode, L, need) <==> forall i | 0 <= i < |L| :: !Fits(L[i], need)
  {
  }

  /** The state of bestfit's scan after the first i spans: bestSize is the
      running minimum and, when a span was found, the j-th span is the first
      fitting span of that size. */
  ghost predicate BestSoFar(L: seq<Span>, need: nat, i: nat, found: bool, j: nat, bestSize: nat)
  {
    i <= |L|
    && (!found ==> bestSize == AddressLimit - 1)
    && (found ==> j < i && Fits(L[j], need) && bestSize == L[j].size && bestSize < AddressLimit - 1)
    && (forall k | 0 <= k < i && Fits(L[k], need) :: bestSize <= L[k].size)
    && (found ==> forall k | 0 <= k < j && Fits(L[k], need) :: bestSize < L[k].size)
  }

  /** One span more: a fitting span strictly below the minimum replaces it. */
  lemma BestStep(L: seq<Span>, need: nat, i: nat, found: bool, j: nat, bestSize: nat)
    requires BestSoFar(L, need, i, found, j, bestSize) && i < |L|
    ensures var take := Fits(L[i], need) && L[i].size < bestSize;
      BestSoFar(L, need, i + 1, found || take, if take then i else j, if take then L[i].size else bestSize)
  {
  }

  /** At the end of the list the scan has found the bestfit span, or none
      qualifies. */
  lemma BestDone(L: seq<Span>, need: nat, found: bool, j: nat, bestSize: nat)
    requires BestSoFar(L, need, |L|, found, j, bestSize)
    ensures found ==> IsBestFit(L, need, j)
    ensures !found ==> NoneChosen(TheBestFit, L, need)
  {
  }

  /** The state of worstfit's scan after the first i spans: worstSize is the
      running maximum and, when a span was found, the j-th span is the first
      fitting span of that size. */
  ghost predicate WorstSoFar(L: seq<Span>, need: nat, i: nat, found: bool, j: nat, worstSize: nat)
  {
    i <= |L|
    && (!found ==> worstSize == 0)
    && (found ==> j < i && Fits(L[j], need) && worstSize == L[j].size && worstSize > 0)
    && (forall k | 0 <= k < i && Fits(L[k], need) :: L[k].size <= worstSize)
    && (found ==> forall k | 0 <= k < j && Fits(L[k], need) :: L[k].size < worstSize)
  }

  /** One span more: a fitting span strictly above the maximum replaces it. */
  lemma WorstStep(L: seq<Span>, need: nat, i: nat, found: bool, j: nat, worstSize: nat)
    requires WorstSoFar(L, need, i, found, j, worstSize) && i < |L|
    ensures var take := Fits(L[i], need) && L[i].size > worstSize;
      WorstSoFar(L, need, i + 1, found || take, if take then i else j, if take then L[i].size else worstSize)
  {
  }

  /** At the end of the list the scan has found the worstfit span, or none
      qualifies. */
  lemma WorstDone(L: seq<Span>, need: nat, found: bool, j: nat, worstSize: nat)
    requires WorstSoFar(L, need, |L|, found, j, worstSize)
    ensures found ==> IsWorstFit(L, need, j)
    ensures !found ==> NoneChosen(TheWorstFit, L, need)
  {
  }

  // ---------------------------------------------------------------------
  // Headers and the list they link

  /** The headers at the addresses bs are linked in that order, forwards
      and backwards, with null at both ends. */
  ghost predicate Linked(h: map<nat, BlockHeader>, bs: seq<nat>)
  {
    (forall i | 0 <= i < |bs| :: bs[i] in h)
    && (forall i | 0 <= i < |bs| :: LinkedAt(h, bs, i))
  }

  /** The i-th listed header points at its neighbours in the list. */
  ghost predicate LinkedAt(h: map<nat, BlockHeader>, bs: seq<nat>, i: nat)
    requires i < |bs| && bs[i] in h
  {
    h[bs[i]].next == (if i + 1 < |bs| then Some(bs[i + 1]) else None)
    && h[bs[i]].prev == (if i > 0 then Some(bs[i - 1]) else None)
  }

  /** The spans the headers at bs describe. */
  function View(h: map<nat, BlockHeader>, bs: seq<nat>): seq<Span>
    requires forall i | 0 <= i < |bs| :: bs[i] in h
  {
    seq(|bs|, i requires 0 <= i < |bs| => Span(bs[i], h[bs[i]].size, h[bs[i]].isAllocated))
  }

  /** The header writes of splitBlockAndInit at `a` for `need` bytes, with
      initBlockMetadata corrected to point the old successor back at the new
      header: the block keeps `need` bytes, a zeroed header at a + need gets
      the rest and is linked between them. */
  function SplitHeaders(h: map<nat, BlockHeader>, a: nat, need: nat, arena: nat): (r: map<nat, BlockHeader>)
    requires a in h && need < h[a].size
  {
    var b := h[a];
    var n := a + need;
    var h1 := h[a := b.(size := need, next := Some(n))][n := BlockHeader(b.size - need, false, b.next, Some(a), arena)];
    if b.next.Some? && b.next.value in h1 then h1[b.next.value := h1[b.next.value].(prev := Some(n))] else h1
  }

  /** canMergeNext: the block is not null and its successor exists, is free
      and starts where the block ends. */
  predicate CanMergeNext(h: map<nat, BlockHeader>, block: nat)
  {
    block != 0 && block in h
    && h[block].next.Some? && h[block].next.value in h
    && !h[h[block].next.value].isAllocated
    && block + h[block].size == h[block].next.value
  }

  /** canMergePrev: the block is not null and its predecessor exists, is
      free and ends where the block starts. */
  predicate CanMergePrev(h: map<nat, BlockHeader>, block: nat)
  {
    block != 0 && block in h
    && h[block].prev.Some? && h[block].prev.value in h
    && !h[h[block].prev.value].isAllocated
    && h[block].prev.value + h[h[block].prev.value].size == block
  }

  /** A header as `new block_metadata()` leaves it: every field zero. */
  const ZeroHeader: BlockHeader := BlockHeader(0, false, None, None, 0)

  /** The header writes of initBlockMetadata for a non-null `block`,
      corrected to point the successor that `block` inherits from `prev`
      back at `block`. The size field keeps the low 63 bits. */
  function InitHeaders(h: map<nat, BlockHeader>, block: nat, prev: Option<nat>, size: nat, arena: nat): (r: map<nat, BlockHeader>)
    requires block in h && (prev.Some? ==> prev.value in h)
  {
    var h1 := h[block := h[block].(parent := arena, size := size % SizeLimit)];
    if prev.None? then h1
    else
      var p := prev.value;
      var h2 := h1[block := h1[block].(prev := prev, next := if h1[p].next.Some? then h1[p].next else h1[block].next)];
      var h3 := h2[p := h2[p].(next := Some(block))];
      var bn := h3[block].next;
      if bn.Some? && bn.value in h3 then h3[bn.value := h3[bn.value].(prev := Some(block))] else h3
  }

  /** splitBlockAndInit is: shrink the block, zero a header after it and
      initialise that header with the block as its predecessor. */
  lemma SplitIsInit(h: map<nat, BlockHeader>, a: nat, need: nat, arena: nat)
    requires a in h && 0 < need < h[a].size
    requires h[a].next.Some? ==> h[a].next.value != a && h[a].next.value != a + need
    ensures a + need in h[a := h[a].(size := need)][a + need := ZeroHeader]
    ensures SplitHeaders(h, a, need, arena)
      == InitHeaders(h[a := h[a].(size := need)][a + need := ZeroHeader], a + need, Some(a), h[a].size - need, arena)
  {
  }

  /** The header writes of mergeBlocks, corrected to give the acceptor the
      donor's bytes: the size field is 63 bits wide. */
  function MergeHeaders(h: map<nat, BlockHeader>, acceptor: nat, donor: nat): (r: map<nat, BlockHeader>)
    requires acceptor in h && donor in h
  {
    var a := h[acceptor];
    var d := h[donor];
    var h1 := h[acceptor := a.(size := (a.size + d.size) % SizeLimit, next := d.next)];
    if d.next.Some? && d.next.value in h1 then h1[d.next.value := h1[d.next.value].(prev := Some(acceptor))] else h1
  }

  /** Headers at the addresses of a tiling list are distinct. */
  lemma ViewDistinct(h: map<nat, BlockHeader>, bs: seq<nat>, start: nat, end: nat, i: nat, k: nat)
    requires forall x | 0 <= x < |bs| :: bs[x] in h
    requires Tiles(View(h, bs), start, end) && MinSizes(View(h, bs))
    requires i < |bs| && k < |bs| && i != k
    ensures bs[i] != bs[k]
  {
    if i < k {
      TilesIncreasing(View(h, bs), start, end, i, k);
    } else {
      TilesIncreasing(View(h, bs), start, end, k, i);
    }
  }

  /** Changing one listed header's size or state, not its links, changes
      only that span. */
  lemma UpdateOne(h: map<nat, BlockHeader>, bs: seq<nat>, j: nat, x: BlockHeader)
    requires Linked(h, bs) && Distinct(bs)
    requires j < |bs| && x.next == h[bs[j]].next && x.prev == h[bs[j]].prev
    ensures Linked(h[bs[j] := x], bs)
    ensures View(h[bs[j] := x], bs) == View(h, bs)[j := Span(bs[j], x.size, x.isAllocated)]
  {
    var h' := h[bs[j] := x];
    forall i | 0 <= i < |bs|
      ensures bs[i] in h' && LinkedAt(h', bs, i)
      ensures Span(bs[i], h'[bs[i]].size, h'[bs[i]].isAllocated) == View(h, bs)[j := Span(bs[j], x.size, x.isAllocated)][i]
    {
      assert LinkedAt(h, bs, i);
      if i != j {
        assert bs[i] != bs[j];
        assert h'[bs[i]] == h[bs[i]];
      }
    }
    assert Linked(h', bs);
    assert View(h', bs) == View(h, bs)[j := Span(bs[j], x.size, x.isAllocated)];
  }

  /** Every allocated header in the list names `arena` as its parent. */
  ghost predicate Owned(h: map<nat, BlockHeader>, bs: seq<nat>, arena: nat)
  {
    (forall i | 0 <= i < |bs| :: bs[i] in h)
    && forall i | 0 <= i < |bs| :: h[bs[i]].isAllocated ==> h[bs[i]].parent == arena
  }

  /** Rewriting one listed header keeps the list owned when the new header
      is free or names `arena`. */
  lemma UpdateOwned(h: map<nat, BlockHeader>, bs: seq<nat>, j: nat, x: BlockHeader, arena: nat)
    requires Owned(h, bs, arena) && Distinct(bs) && j < |bs|
    requires x.isAllocated ==> x.parent == arena
    ensures Owned(h[bs[j] := x], bs, arena)
  {
    forall i | 0 <= i < |bs| && i != j
      ensures h[bs[j] := x][bs[i]] == h[bs[i]]
    {
      assert bs[i] != bs[j];
    }
  }

  /** No address is listed twice. */
  ghost predicate Distinct(bs: seq<nat>)
  {
    forall p, q | 0 <= p < q < |bs| :: bs[p] != bs[q]
  }

  lemma TilesDistinct(h: map<nat, BlockHeader>, bs: seq<nat>, start: nat, end: nat)
    requires forall x | 0 <= x < |bs| :: bs[x] in h
    requires Tiles(View(h, bs), start, end) && MinSizes(View(h, bs))
    ensures Distinct(bs)
  {
    forall p, q | 0 <= p < q < |bs|
      ensures bs[p] != bs[q]
    {
      ViewDistinct(h, bs, start, end, p, q);
    }
  }

  /** What each header reads after the split writes. */
  lemma SplitHeadersAt(h: map<nat, BlockHeader>, a: nat, need: nat, arena: nat, x: nat)
    requires a in h && 0 < need < h[a].size
    requires h[a].next.Some? ==> h[a].next.value in h && h[a].next.value != a && h[a].next.value != a + need
    ensures var b := h[a];
      var r := SplitHeaders(h, a, need, arena);
      (x == a ==> x in r && r[x] == b.(size := need, next := Some(a + need)))
      && (x == a + need ==> x in r && r[x] == BlockHeader(b.size - need, false, b.next, Some(a), arena))
      && (b.next == Some(x) ==> x in r && r[x] == h[x].(prev := Some(a + need)))
      && (x in h && x != a && x != a + need && b.next != Some(x) ==> x in r && r[x] == h[x])
  {
  }

  /** The list after a split: the new header right after index j. */
  function SplitList(bs: seq<nat>, j: nat, n: nat): (r: seq<nat>)
    requires j < |bs|
    ensures |r| == |bs| + 1
  {
    bs[..j + 1] + [n] + bs[j + 1..]
  }

  /** Where the addresses of the split list come from. */
  lemma SplitListAt(bs: seq<nat>, j: nat, n: nat, i: nat)
    requires j < |bs| && i < |bs| + 1
    ensures i <= j ==> SplitList(bs, j, n)[i] == bs[i]
    ensures i == j + 1 ==> SplitList(bs, j, n)[i] == n
    ensures i > j + 1 ==> SplitList(bs, j, n)[i] == bs[i - 1]
  {
  }

  /** What a split needs of the list: linked, no address twice, and the new
      header's address not yet listed. */
  ghost predicate SplitReady(h: map<nat, BlockHeader>, bs: seq<nat>, j: nat, need: nat)
  {
    Linked(h, bs) && Distinct(bs) && j < |bs| && 0 < need < h[bs[j]].size
    && forall k | 0 <= k < |bs| :: bs[k] != bs[j] + need
  }

  /** The header writes of a split, on the list: one index at a time. */
  lemma SplitEntry(h: map<nat, BlockHeader>, bs: seq<nat>, j: nat, need: nat, arena: nat, i: nat)
    requires SplitReady(h, bs, j, need) && i < |bs| + 1
    ensures var bs' := SplitList(bs, j, bs[j] + need);
      var h' := SplitHeaders(h, bs[j], need, arena);
      bs'[i] in h' && LinkedAt(h', bs', i)
      && Span(bs'[i], h'[bs'[i]].size, h'[bs'[i]].isAllocated) == SplitSpans(View(h, bs), j, need)[i]
  {
    var n := bs[j] + need;
    assert LinkedAt(h, bs, j);
    SplitListAt(bs, j, n, i);
    if i + 1 < |bs| + 1 {
      SplitListAt(bs, j, n, i + 1);
    }
    if i > 0 {
      SplitListAt(bs, j, n, i - 1);
    }
    if j + 1 < |bs| {
      assert bs[j + 1] in h && bs[j + 1] != bs[j] && bs[j + 1] != n;
    }
    SplitHeadersAt(h, bs[j], need, arena, SplitList(bs, j, n)[i]);
    if i < j {
      SplitEntryBefore(h, bs, j, need, arena, i);
    } else if i <= j + 2 {
      SplitEntryNear(h, bs, j, need, arena, i);
    } else {
      SplitEntryAfter(h, bs, j, need, arena, i);
    }
  }

  /** SplitEntry below the split block: nothing changes there. */
  lemma SplitEntryBefore(h: map<nat, BlockHeader>, bs: seq<nat>, j: nat, need: nat, arena: nat, i: nat)
    requires SplitReady(h, bs, j, need) && i < j
    requires bs[j + 1..] != [] ==> bs[j + 1] in h && bs[j + 1] != bs[j] && bs[j + 1] != bs[j] + need
    requires var bs' := SplitList(bs, j, bs[j] + need);
      bs'[i] == bs[i] && bs'[i + 1] == bs[i + 1]
      && (i > 0 ==> bs'[i - 1] == bs[i - 1])
    requires var b := h[bs[j]];
      var r := SplitHeaders(h, bs[j], need, arena);
      var x := bs[i];
      x in h && x != bs[j] && x != bs[j] + need && b.next != Some(x) ==> x in r && r[x] == h[x]
    ensures var bs' := SplitList(bs, j, bs[j] + need);
      var h' := SplitHeaders(h, bs[j], need, arena);
      bs'[i] in h' && LinkedAt(h', bs', i)
      && Span(bs'[i], h'[bs'[i]].size, h'[bs'[i]].isAllocated) == SplitSpans(View(h, bs), j, need)[i]
  {
    var n := bs[j] + need;
    var bs' := SplitList(bs, j, n);
    var h' := SplitHeaders(h, bs[j], need, arena);
    assert LinkedAt(h, bs, j);
    assert LinkedAt(h, bs, i);
    assert bs[i] != bs[j] && bs[i] != n;
    assert j + 1 < |bs| ==> bs[i] != bs[j + 1];
    assert h'[bs'[i]] == h[bs[i]];
    assert i + 1 <= j;
  }

  /** SplitEntry at the split block, the new header and the block after. */
  lemma SplitEntryNear(h: map<nat, BlockHeader>, bs: seq<nat>, j: nat, need: nat, arena: nat, i: nat)
    requires SplitReady(h, bs, j, need) && j <= i <= j + 2 && i < |bs| + 1
    requires bs[j + 1..] != [] ==> bs[j + 1] in h && bs[j + 1] != bs[j] && bs[j + 1] != bs[j] + need
    requires var bs' := SplitList(bs, j, bs[j] + need);
      (i <= j ==> bs'[i] == bs[i])
      && (i == j + 1 ==> bs'[i] == bs[j] + need)
      && (i > j + 1 ==> bs'[i] == bs[i - 1])
      && (i + 1 < |bs'| && i + 1 > j + 1 ==> bs'[i + 1] == bs[i])
      && (i + 1 == j + 1 ==> bs'[i + 1] == bs[j] + need)
      && (i > 0 && i - 1 <= j ==> bs'[i - 1] == bs[i - 1])
      && (i - 1 == j + 1 ==> bs'[i - 1] == bs[j] + need)
    requires var b := h[bs[j]];
      var r := SplitHeaders(h, bs[j], need, arena);
      var x := SplitList(bs, j, bs[j] + need)[i];
      (x == bs[j] ==> x in r && r[x] == b.(size := need, next := Some(bs[j] + need)))
      && (x == bs[j] + need ==> x in r && r[x] == BlockHeader(b.size - need, false, b.next, Some(bs[j]), arena))
      && (b.next == Some(x) ==> x in r && r[x] == h[x].(prev := Some(bs[j] + need)))
    ensures var bs' := SplitList(bs, j, bs[j] + need);
      var h' := SplitHeaders(h, bs[j], need, arena);
      bs'[i] in h' && LinkedAt(h', bs', i)
      && Span(bs'[i], h'[bs'[i]].size, h'[bs'[i]].isAllocated) == SplitSpans(View(h, bs), j, need)[i]
  {
    var n := bs[j] + need;
    var bs' := SplitList(bs, j, n);
    var h' := SplitHeaders(h, bs[j], need, arena);
    assert LinkedAt(h, bs, j);
    if i == j {
      assert h'[bs'[i]] == h[bs[j]].(size := need, next := Some(n));
    } else if i == j + 1 {
      assert h'[bs'[i]] == BlockHeader(h[bs[j]].size - need, false, h[bs[j]].next, Some(bs[j]), arena);
      if i + 1 < |bs'| {
        assert bs'[i + 1] == bs[j + 1];
      }
    } else {
      assert LinkedAt(h, bs, j + 1);
      assert h'[bs'[i]] == h[bs[j + 1]].(prev := Some(n));
    }
  }

  /** SplitEntry past the block after the split: nothing changes there. */
  lemma SplitEntryAfter(h: map<nat, BlockHeader>, bs: seq<nat>, j: nat, need: nat, arena: nat, i: nat)
    requires SplitReady(h, bs, j, need) && j + 2 < i < |bs| + 1
    requires bs[j + 1] in h && bs[j + 1] != bs[j] && bs[j + 1] != bs[j] + need
    requires var bs' := SplitList(bs, j, bs[j] + need);
      bs'[i] == bs[i - 1] && bs'[i - 1] == bs[i - 2]
      && (i + 1 < |bs'| ==> bs'[i + 1] == bs[i])
    requires var b := h[bs[j]];
      var r := SplitHeaders(h, bs[j], need, arena);
      var x := bs[i - 1];
      x in h && x != bs[j] && x != bs[j] + need && b.next != Some(x) ==> x in r && r[x] == h[x]
    ensures var bs' := SplitList(bs, j, bs[j] + need);
      var h' := SplitHeaders(h, bs[j], need, arena);
      bs'[i] in h' && LinkedAt(h', bs', i)
      && Span(bs'[i], h'[bs'[i]].size, h'[bs'[i]].isAllocated) == SplitSpans(View(h, bs), j, need)[i]
  {
    var n := bs[j] + need;
    var bs' := SplitList(bs, j, n);
    var h' := SplitHeaders(h, bs[j], need, arena);
    assert LinkedAt(h, bs, j);
    assert LinkedAt(h, bs, i - 1);
    assert bs[j] != bs[i - 1] && bs[j + 1] != bs[i - 1] && bs[i - 1] != n;
    assert h'[bs'[i]] == h[bs[i - 1]];
  }

  /** The split writes keep every flag and parent except at the new header,
      which is free and owned by `arena`. */
  lemma SplitParent(h: map<nat, BlockHeader>, bs: seq<nat>, j: nat, need: nat, arena: nat, i: nat)
    requires SplitReady(h, bs, j, need) && i < |bs| + 1
    ensures var bs' := SplitList(bs, j, bs[j] + need);
      var h' := SplitHeaders(h, bs[j], need, arena);
      bs'[i] in h'
      && (i <= j ==> h'[bs'[i]].parent == h[bs[i]].parent && h'[bs'[i]].isAllocated == h[bs[i]].isAllocated)
      && (i == j + 1 ==> h'[bs'[i]].parent == arena && !h'[bs'[i]].isAllocated)
      && (i > j + 1 ==> h'[bs'[i]].parent == h[bs[i - 1]].parent && h'[bs'[i]].isAllocated == h[bs[i - 1]].isAllocated)
  {
    var n := bs[j] + need;
    assert LinkedAt(h, bs, j);
    SplitListAt(bs, j, n, i);
    if j + 1 < |bs| {
      assert bs[j + 1] in h && bs[j + 1] != bs[j] && bs[j + 1] != n;
    }
    SplitHeadersAt(h, bs[j], need, arena, SplitList(bs, j, n)[i]);
    if i < j {
      assert bs[i] != bs[j] && bs[i] != n;
    } else if i > j + 1 {
      assert bs[i - 1] != bs[j] && bs[i - 1] != n;
    }
  }

  /** The split, on the headers: the list gains the new header right after
      index j and the spans are split at j. */
  lemma SplitView(h: map<nat, BlockHeader>, bs: seq<nat>, start: nat, end: nat, j: nat, need: nat, arena: nat)
    requires Linked(h, bs) && Tiles(View(h, bs), start, end) && MinSizes(View(h, bs))
    requires j < |bs| && BlockMetadataSize <= need && need + BlockMetadataSize < h[bs[j]].size
    ensures var bs' := SplitList(bs, j, bs[j] + need);
      var h' := SplitHeaders(h, bs[j], need, arena);
      Linked(h', bs') && View(h', bs') == SplitSpans(View(h, bs), j, need)
      && (Owned(h, bs, arena) ==> Owned(h', bs', arena))
  {
    var n := bs[j] + need;
    var bs' := SplitList(bs, j, n);
    var h' := SplitHeaders(h, bs[j], need, arena);
    var L := View(h, bs);
    TilesDistinct(h, bs, start, end);
    // n lies strictly inside the span at j, so it is none of the listed
    // addresses.
    forall k | 0 <= k < |bs|
      ensures bs[k] != n
    {
      if k < j {
        TilesIncreasing(L, start, end, k, j);
      } else if k > j {
        TilesIncreasing(L, start, end, j, k);
      }
    }
    assert SplitReady(h, bs, j, need);
    forall i | 0 <= i < |bs'|
      ensures bs'[i] in h' && LinkedAt(h', bs', i)
      ensures Span(bs'[i], h'[bs'[i]].size, h'[bs'[i]].isAllocated) == SplitSpans(L, j, need)[i]
      ensures Owned(h, bs, arena) && h'[bs'[i]].isAllocated ==> h'[bs'[i]].parent == arena
    {
      SplitEntry(h, bs, j, need, arena, i);
      SplitParent(h, bs, j, need, arena, i);
      if Owned(h, bs, arena) && h'[bs'[i]].isAllocated {
        if i <= j {
          assert h[bs[i]].isAllocated;
        } else if i > j + 1 {
          assert h[bs[i - 1]].isAllocated;
        }
      }
    }
    assert Linked(h', bs');
    assert |View(h', bs')| == |SplitSpans(L, j, need)|;
    assert View(h', bs') == SplitSpans(L, j, need);
  }

  /** What each header reads after the merge writes. */
  lemma MergeHeadersAt(h: map<nat, BlockHeader>, acceptor: nat, donor: nat, x: nat)
    requires acceptor in h && donor in h
    requires h[donor].next.Some? ==> h[donor].next.value in h && h[donor].next.value != acceptor
    ensures var a := h[acceptor];
      var d := h[donor];
      var r := MergeHeaders(h, acceptor, donor);
      (x == acceptor ==> x in r && r[x] == a.(size := (a.size + d.size) % SizeLimit, next := d.next))
      && (d.next == Some(x) ==> x in r && r[x] == h[x].(prev := Some(acceptor)))
      && (x in h && x != acceptor && d.next != Some(x) ==> x in r && r[x] == h[x])
  {
  }

  /** The list after a merge: the donor after index j leaves. */
  function MergeList(bs: seq<nat>, j: nat): (r: seq<nat>)
    requires j + 1 < |bs|
    ensures |r| == |bs| - 1
  {
    bs[..j + 1] + bs[j + 2..]
  }

  /** Where the addresses of the merged list come from. */
  lemma MergeListAt(bs: seq<nat>, j: nat, i: nat)
    requires j + 1 < |bs| && i < |bs| - 1
    ensures i <= j ==> MergeList(bs, j)[i] == bs[i]
    ensures i > j ==> MergeList(bs, j)[i] == bs[i + 1]
  {
  }

  /** The header writes of a merge, on the list: one index at a time. */
  lemma MergeEntry(h: map<nat, BlockHeader>, bs: seq<nat>, j: nat, i: nat)
    requires Linked(h, bs) && Distinct(bs) && j + 1 < |bs|
    requires i < |bs| - 1
    ensures var bs' := MergeList(bs, j);
      var h' := MergeHeaders(h, bs[j], bs[j + 1]);
      bs'[i] in h' && LinkedAt(h', bs', i)
      && h'[bs'[i]].isAllocated == h[bs'[i]].isAllocated
      && (i != j ==> h'[bs'[i]].size == h[bs'[i]].size)
      && (i == j ==> h'[bs'[i]].size == (h[bs[j]].size + h[bs[j + 1]].size) % SizeLimit)
      && h'[bs'[i]].parent == h[bs'[i]].parent
  {
    var bs' := MergeList(bs, j);
    var h' := MergeHeaders(h, bs[j], bs[j + 1]);
    assert LinkedAt(h, bs, j + 1);
    if j + 2 < |bs| {
      assert bs[j + 2] in h && bs[j + 2] != bs[j];
    }
    MergeListAt(bs, j, i);
    if i + 1 < |bs'| {
      MergeListAt(bs, j, i + 1);
    }
    if i > 0 {
      MergeListAt(bs, j, i - 1);
    }
    MergeHeadersAt(h, bs[j], bs[j + 1], bs'[i]);
    if i < j {
      assert LinkedAt(h, bs, i);
      assert bs[i] != bs[j];
      assert j + 2 < |bs| ==> bs[i] != bs[j + 2];
      assert h'[bs'[i]] == h[bs[i]];
    } else if i == j {
      assert LinkedAt(h, bs, j);
      assert h'[bs'[i]].next == h[bs[j + 1]].next;
      if i + 1 < |bs'| {
        assert bs'[i + 1] == bs[j + 2];
      }
    } else if i == j + 1 {
      assert LinkedAt(h, bs, j + 2);
      assert h'[bs'[i]] == h[bs[j + 2]].(prev := Some(bs[j]));
    } else {
      assert LinkedAt(h, bs, i + 1);
      assert bs[j] != bs[i + 1] && bs[j + 2] != bs[i + 1];
      assert h'[bs'[i]] == h[bs[i + 1]];
    }
  }

  /** The merge, on the headers: the donor right after the acceptor leaves
      the list and the spans are merged at j. */
  lemma MergeView(h: map<nat, BlockHeader>, bs: seq<nat>, start: nat, end: nat, j: nat)
    requires Linked(h, bs) && Tiles(View(h, bs), start, end) && MinSizes(View(h, bs))
    requires end - start < SizeLimit
    requires j + 1 < |bs|
    ensures var bs' := MergeList(bs, j);
      var h' := MergeHeaders(h, bs[j], bs[j + 1]);
      Linked(h', bs') && View(h', bs') == MergeSpans(View(h, bs), j)
      && (forall arena: nat :: Owned(h, bs, arena) ==> Owned(h', bs', arena))
  {
    var bs' := MergeList(bs, j);
    var h' := MergeHeaders(h, bs[j], bs[j + 1]);
    MergeLinked(h, bs, start, end, j);
    forall arena: nat | Owned(h, bs, arena)
      ensures Owned(h', bs', arena)
    {
      forall i | 0 <= i < |bs'| && h'[bs'[i]].isAllocated
        ensures h'[bs'[i]].parent == arena
      {
        MergeListAt(bs, j, i);
        if i <= j {
          assert h[bs[i]].isAllocated;
        } else {
          assert h[bs[i + 1]].isAllocated;
        }
      }
    }
  }

  /** MergeView without ownership: the merged list is linked, its spans are
      merged at j, and every listed header keeps its flag and parent. */
  lemma MergeLinked(h: map<nat, BlockHeader>, bs: seq<nat>, start: nat, end: nat, j: nat)
    requires Linked(h, bs) && Tiles(View(h, bs), start, end) && MinSizes(View(h, bs))
    requires end - start < SizeLimit
    requires j + 1 < |bs|
    ensures var bs' := MergeList(bs, j);
      var h' := MergeHeaders(h, bs[j], bs[j + 1]);
      Linked(h', bs') && View(h', bs') == MergeSpans(View(h, bs), j)
      && (forall i | 0 <= i < |bs'| :: bs'[i] in h' && bs'[i] in h && h'[bs'[i]].isAllocated == h[bs'[i]].isAllocated)
      && (forall i | 0 <= i < |bs'| :: bs'[i] in h' && bs'[i] in h && h'[bs'[i]].parent == h[bs'[i]].parent)
  {
    var bs' := MergeList(bs, j);
    var h' := MergeHeaders(h, bs[j], bs[j + 1]);
    var L := View(h, bs);
    forall i | 0 <= i < |bs'|
      ensures bs'[i] in h' && LinkedAt(h', bs', i)
      ensures Span(bs'[i], h'[bs'[i]].size, h'[bs'[i]].isAllocated) == MergeSpans(L, j)[i]
      ensures bs'[i] in h && h'[bs'[i]].isAllocated == h[bs'[i]].isAllocated && h'[bs'[i]].parent == h[bs'[i]].parent
    {
      MergeEntrySpan(h, bs, start, end, j, i);
    }
    assert Linked(h', bs');
    assert View(h', bs') == MergeSpans(L, j);
  }

  /** One index of MergeLinked. */
  lemma MergeEntrySpan(h: map<nat, BlockHeader>, bs: seq<nat>, start: nat, end: nat, j: nat, i: nat)
    requires Linked(h, bs) && Tiles(View(h, bs), start, end) && MinSizes(View(h, bs))
    requires end - start < SizeLimit
    requires j + 1 < |bs| && i < |bs| - 1
    ensures var bs' := MergeList(bs, j);
      var h' := MergeHeaders(h, bs[j], bs[j + 1]);
      bs'[i] in h' && LinkedAt(h', bs', i)
      && Span(bs'[i], h'[bs'[i]].size, h'[bs'[i]].isAllocated) == MergeSpans(View(h, bs), j)[i]
      && bs'[i] in h && h'[bs'[i]].isAllocated == h[bs'[i]].isAllocated && h'[bs'[i]].parent == h[bs'[i]].parent
  {
    NeighboursBound(View(h, bs), start, end, j);
    TilesDistinct(h, bs, start, end);
    MergeEntry(h, bs, j, i);
    MergeListAt(bs, j, i);
  }
}
