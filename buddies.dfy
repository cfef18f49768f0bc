/** allocator_buddies_system: an arena whose block area of 2^K bytes is cut
    into power-of-two blocks, each starting with a one-byte header. The
    area's bytes are the array `tags`, read as headers where the walk meets
    them; addresses handed out are absolute (`base` is the arena's first
    byte, where BuddyAllocatorMetadata sits). */
module BuddiesSystem {
  import opened Powers
  import opened Wrappers
  import opened FitModes
  import opened BuddiesLayout

  datatype BuddyError = InsufficientSpace | InvalidDeallocation

  /** What get_blocks_info reports of one block. */
  datatype BlockInfo = BlockInfo(size: nat, occupied: bool)

  function Info(w: seq<Block>): (r: seq<BlockInfo>)
    ensures |r| == |w|
    ensures forall i | 0 <= i < |w| :: r[i] == BlockInfo(Pow2(w[i].tag.k), w[i].tag.occupied)
  {
    if w == [] then [] else [BlockInfo(Pow2(w[0].tag.k), w[0].tag.occupied)] + Info(w[1..])
  }

  /** The constructor's guard: a request below 5 bytes is a logic_error;
      otherwise the arena holds one free block of 2^floor(log2 size) bytes. */
  method Create(size: nat, base: nat, mode: FitMode) returns (r: Result<BuddyAllocator, BuddyError>)
    requires size < Pow2(31)
    ensures r.Err? <==> size < 5
    ensures r.Err? ==> r.error == InsufficientSpace
    ensures r.Ok? ==> (fresh(r.value) && fresh(r.value.tags) && r.value.Valid()
      && r.value.base == base && r.value.fitMode == mode
      && r.value.areaExponent == FloorLog2(size)
      && r.value.memSize == Pow2(FloorLog2(size)) + ArenaHeaderSize + BlockHeaderSize
      && r.value.Layout() == [Block(0, Tag(false, r.value.areaExponent))])
  {
    if size < 5 {
      return Err(InsufficientSpace);
    }
    var a := new BuddyAllocator(size, base, mode);
    r := Ok(a);
  }

  class BuddyAllocator {
    /** Address of the arena's first byte. */
    const base: nat
    /** The block area spans 2^areaExponent bytes. */
    const areaExponent: nat
    /** data->memSize: the area, the arena header and one spare byte. */
    const memSize: nat
    var fitMode: FitMode
    /** The block area and its spare byte, one header per byte. */
    const tags: array<Tag>

    function AreaSize(): nat
    {
      Pow2(areaExponent)
    }

    /** Address of the area's first byte (data->begin). */
    function Begin(): nat
    {
      base + ArenaHeaderSize
    }

    ghost predicate Valid()
      reads this, tags
    {
      areaExponent <= 30
      && tags.Length == AreaSize() + 1
      && memSize == AreaSize() + ArenaHeaderSize + BlockHeaderSize
      && Tiled(tags[..], AreaSize(), 0)
      && Aligned(Layout())
    }

    /** The blocks met walking the area from its first header. */
    ghost function Layout(): seq<Block>
      reads this, tags
      requires tags.Length == AreaSize() + 1
    {
      Walk(tags[..], AreaSize(), 0)
    }

    /** The constructor for a requested size of at least 5: the area is the
        largest power of two not above it, one free block. */
    constructor (size: nat, base: nat, mode: FitMode)
      requires 5 <= size < Pow2(31)
      ensures Valid() && fresh(tags)
      ensures this.base == base && fitMode == mode
      ensures areaExponent == FloorLog2(size)
      ensures memSize == Pow2(FloorLog2(size)) + ArenaHeaderSize + BlockHeaderSize
      ensures Layout() == [Block(0, Tag(false, FloorLog2(size)))]
    {
      var k := FloorLog2(size);
      FloorLog2Below(size, 31);
      var area := new Tag[Pow2(k) + 1](i => Tag(false, 0));
      area[0] := Tag(false, k);
      this.base := base;
      areaExponent := k;
      memSize := Pow2(k) + ArenaHeaderSize + BlockHeaderSize;
      fitMode := mode;
      tags := area;
      new;
      ghost var t := tags[..];
      assert t[0] == Tag(false, k);
      assert NextOffset(t, Pow2(k), 0) == None;
      assert Walk(t, Pow2(k), 0) == [Block(0, Tag(false, k))];
      assert Tiled(t, Pow2(k), 0);
    }

    /** next_block: the header after the block at offset o, or null. */
    function NextBlock(o: nat): (r: Option<nat>)
      reads this, tags
      requires tags.Length == AreaSize() + 1 && o < tags.Length
      ensures r.Some? ==> o < r.value < tags.Length
    {
      NextOffset(tags[..], AreaSize(), o)
    }

    /** get_first: the first free block of more than `size` bytes. */
    method GetFirst(size: nat) returns (r: Option<nat>, ghost j: nat)
      requires Valid()
      ensures r.Some? ==> IsFirstFit(Layout(), size, j) && r.value == Layout()[j].offset
      ensures r.None? ==> NoneChosen(FirstFit, Layout(), size)
    {
      ghost var w := Layout();
      var cur := 0;
      j := 0;
      while true
        invariant j < |w| && cur == w[j].offset
        invariant forall i | 0 <= i < j :: !Fits(w[i], size)
        decreases |w| - j
      {
        WalkReadsTags(tags[..], AreaSize(), 0, j);
        if !tags[cur].occupied && Pow2(tags[cur].k) > size {
          return Some(cur), j;
        }
        WalkNext(tags[..], AreaSize(), 0, j);
        var next := NextBlock(cur);
        if next.None? {
          return None, j;
        }
        cur := next.value;
        j := j + 1;
      }
    }

    /** get_best: the first fitting block of least exponent. */
    method GetBest(size: nat) returns (r: Option<nat>, ghost j: nat)
      requires Valid()
      ensures r.Some? ==> IsBestFit(Layout(), size, j) && r.value == Layout()[j].offset
      ensures r.None? ==> NoneChosen(TheBestFit, Layout(), size)
    {
      ghost var w := Layout();
      var cur := 0;
      ghost var i := 0;
      var best: Option<nat> := None;
      var bestSize: nat := 255;
      j := 0;
      while true
        invariant i < |w| && cur == w[i].offset
        invariant best.None? ==> bestSize == 255 && forall h | 0 <= h < i :: !Fits(w[h], size)
        invariant best.Some? ==> (j < i && best.value == w[j].offset && Fits(w[j], size)
          && bestSize == w[j].tag.k
          && (forall h | 0 <= h < i && Fits(w[h], size) :: w[j].tag.k <= w[h].tag.k)
          && (forall h | 0 <= h < j && Fits(w[h], size) :: w[j].tag.k < w[h].tag.k))
        decreases |w| - i
      {
        WalkReadsTags(tags[..], AreaSize(), 0, i);
        if !tags[cur].occupied && Pow2(tags[cur].k) > size && tags[cur].k < bestSize {
          bestSize := tags[cur].k;
          best := Some(cur);
          j := i;
        }
        WalkNext(tags[..], AreaSize(), 0, i);
        var next := NextBlock(cur);
        if next.None? {
          return best, j;
        }
        cur := next.value;
        i := i + 1;
      }
    }

    /** get_worst: the first fitting block of greatest nonzero exponent. */
    method GetWorst(size: nat) returns (r: Option<nat>, ghost j: nat)
      requires Valid()
      ensures r.Some? ==> IsWorstFit(Layout(), size, j) && r.value == Layout()[j].offset
      ensures r.None? ==> NoneChosen(TheWorstFit, Layout(), size)
    {
      ghost var w := Layout();
      var cur := 0;
      ghost var i := 0;
      var worst: Option<nat> := None;
      var worstSize: nat := 0;
      j := 0;
      while true
        invariant i < |w| && cur == w[i].offset
        invariant worst.None? ==> worstSize == 0 && forall h | 0 <= h < i && Fits(w[h], size) :: w[h].tag.k == 0
        invariant worst.Some? ==> (j < i && worst.value == w[j].offset && Fits(w[j], size)
          && worstSize == w[j].tag.k > 0
          && (forall h | 0 <= h < i && Fits(w[h], size) :: w[h].tag.k <= w[j].tag.k)
          && (forall h | 0 <= h < j && Fits(w[h], size) :: w[h].tag.k < w[j].tag.k))
        decreases |w| - i
      {
        WalkReadsTags(tags[..], AreaSize(), 0, i);
        if !tags[cur].occupied && Pow2(tags[cur].k) > size && tags[cur].k > worstSize {
          worstSize := tags[cur].k;
          worst := Some(cur);
          j := i;
        }
        WalkNext(tags[..], AreaSize(), 0, i);
        var next := NextBlock(cur);
        if next.None? {
          return worst, j;
        }
        cur := next.value;
        i := i + 1;
      }
    }

    /** do_allocate_sm: pick a block by the fit mode, halve it while it is
        more than twice the request (down to 2^4 bytes), mark it occupied
        and return the address after its header; null when nothing fits. */
    method Allocate(size: nat) returns (r: Option<nat>, ghost j: nat)
      requires Valid()
      modifies tags
      ensures Valid()
      ensures r.None? ==> tags[..] == old(tags[..]) && NoneChosen(fitMode, old(Layout()), size)
      ensures r.Some? ==> (IsChosen(fitMode, old(Layout()), size, j)
        && r.value == Begin() + old(Layout())[j].offset + BlockHeaderSize
        && Layout() == AllocatedWalk(old(Layout()), j, size)
        && Pow2(Layout()[j].tag.k) - BlockHeaderSize >= size)
    {
      var found: Option<nat>;
      match fitMode {
        case FirstFit => found, j := GetFirst(size);
        case TheBestFit => found, j := GetBest(size);
        case TheWorstFit => found, j := GetWorst(size);
      }
      if found.None? {
        return None, j;
      }
      var p := found.value;
      Carve(p, size, j);
      r := Some(Begin() + p + BlockHeaderSize);
    }

    /** The split loop and the marking of do_allocate_sm, applied to the
        j-th block of the walk, at offset p, which is free and fits. */
    method Carve(p: nat, size: nat, ghost j: nat)
      requires Valid() && j < |Layout()| && Layout()[j].offset == p && Fits(Layout()[j], size)
      modifies tags
      ensures Valid()
      ensures Layout() == AllocatedWalk(old(Layout()), j, size)
      ensures j < |Layout()| && Pow2(Layout()[j].tag.k) - BlockHeaderSize >= size
    {
      ghost var n := AreaSize();
      ghost var w0 := Layout();
      WalkReadsTags(tags[..], n, 0, j);
      ghost var k0 := tags[p].k;
      assert w0 == w0[..j] + [Block(p, Tag(false, k0))] + Buddies(p, k0, k0) + w0[j + 1..];
      while Pow2(tags[p].k) > 2 * size && tags[p].k > 4
        invariant tags.Length == n + 1
        invariant SplitState(tags[..], n, w0, j, p, size, tags[p].k)
        decreases tags[p].k
      {
        SplitOnce(p, size, w0, j);
      }
      ghost var before := tags[..];
      var kf := tags[p].k;
      MarkStep(before, n, w0, j, p, size, kf);
      tags[p] := Tag(true, kf);
      assert tags[..] == before[p := Tag(true, kf)];
    }

    /** One round of the split loop: the block at p and its new buddy at
        p + 2^(k-1) both become free blocks of exponent k - 1. */
    method SplitOnce(p: nat, size: nat, ghost w0: seq<Block>, ghost j: nat)
      requires tags.Length == AreaSize() + 1 && p < tags.Length
      requires SplitState(tags[..], AreaSize(), w0, j, p, size, tags[p].k)
      requires Pow2(tags[p].k) > 2 * size && tags[p].k > 4
      modifies tags
      ensures tags[p].k == old(tags[p].k) - 1
      ensures SplitState(tags[..], AreaSize(), w0, j, p, size, tags[p].k)
    {
      ghost var before := tags[..];
      var k := tags[p].k;
      SplitStep(before, AreaSize(), w0, j, p, size, k);
      tags[p] := Tag(false, k - 1);
      var next := NextBlock(p);
      assert next == Some(p + Pow2(k - 1));
      tags[next.value] := Tag(false, k - 1);
      assert tags[..] == SplitAt(before, p, false);
    }

    /** The addresses do_deallocate_sm accepts, with the range check
        corrected: the header one byte before `at` must be a byte of the
        block area or its spare byte. */
    predicate InArea(at: nat)
    {
      Begin() + BlockHeaderSize <= at <= Begin() + AreaSize() + BlockHeaderSize
    }

    /** do_deallocate_sm: null is ignored; an address outside the area is
        an invalid deallocation; otherwise the block whose header precedes
        `at` absorbs following free buddies of its own size, then is marked
        free. There is no check that `at` was handed out, or is still in
        use: a header off the walk is rewritten without changing the walk. */
    method Deallocate(at: nat) returns (r: Outcome<BuddyError>)
      requires Valid()
      modifies tags
      ensures Valid()
      ensures at == 0 ==> r == Pass && tags[..] == old(tags[..])
      ensures at != 0 && !InArea(at) ==> r == Fail(InvalidDeallocation) && tags[..] == old(tags[..])
      ensures at != 0 && InArea(at) ==> r == Pass
      ensures at != 0 && InArea(at) ==>
        var p := at - Begin() - BlockHeaderSize;
        (forall j | 0 <= j < |old(Layout())| && old(Layout())[j].offset == p ::
          Layout() == FreedWalk(old(Layout()), j))
        && ((forall j | 0 <= j < |old(Layout())| :: old(Layout())[j].offset != p) ==> Layout() == old(Layout()))
    {
      if at == 0 {
        return Pass;
      }
      if !InArea(at) {
        return Fail(InvalidDeallocation);
      }
      FreeHeader(at - Begin() - BlockHeaderSize);
      r := Pass;
    }

    /** The merge loop and the final write of do_deallocate_sm, for the
        header at offset p. */
    method FreeHeader(p: nat)
      requires Valid() && p <= AreaSize()
      modifies tags
      ensures Valid()
      ensures (forall j | 0 <= j < |old(Layout())| && old(Layout())[j].offset == p ::
          Layout() == FreedWalk(old(Layout()), j))
        && ((forall j | 0 <= j < |old(Layout())| :: old(Layout())[j].offset != p) ==> Layout() == old(Layout()))
    {
      ghost var n := AreaSize();
      ghost var t0 := tags[..];
      ghost var idx := FindOffset(Layout(), p);
      ghost var c := 0;
      MergeStart(t0, n, idx, p);
      Pow2Monotonic(areaExponent, 30);
      while true
        invariant tags.Length == n + 1 && p < tags.Length
        invariant MergeState(tags[..], n, t0, idx, p, c)
        decreases 128 - tags[p].k
      {
        var merged := MergeRound(p, t0, idx, c);
        if !merged {
          break;
        }
        c := c + 1;
      }
      ghost var before := tags[..];
      FreeStep(before, n, t0, idx, p, c);
      tags[p] := Tag(false, tags[p].k);
      assert tags[..] == before[p := Tag(false, before[p].k)];
      FreeOutcome(t0, tags[..], n, idx, p);
    }

    /** One pass of the merge loop of do_deallocate_sm: the block at p
        absorbs the next one when that is a free block of its own exponent
        and p is aligned to twice its size; otherwise nothing changes and
        every block the walk can absorb has been absorbed. */
    method MergeRound(p: nat, ghost t0: seq<Tag>, ghost idx: Option<nat>, ghost c: nat) returns (merged: bool)
      requires tags.Length == AreaSize() + 1 && p < tags.Length && AreaSize() <= Pow2(30)
      requires MergeState(tags[..], AreaSize(), t0, idx, p, c)
      modifies tags
      ensures merged ==> old(tags[p].k) < tags[p].k && MergeState(tags[..], AreaSize(), t0, idx, p, c + 1)
      ensures !merged ==> tags[..] == old(tags[..])
      ensures !merged && idx.Some? ==>
        Absorbed(Walk(t0, AreaSize(), 0)[idx.value + 1..], p, Walk(t0, AreaSize(), 0)[idx.value].tag.k) == c
    {
      ghost var n := AreaSize();
      ghost var before := tags[..];
      MergeRoundFacts(before, n, t0, idx, p, c);
      var next := NextBlock(p);
      if next.None? || tags[next.value].occupied || tags[next.value].k != tags[p].k
        || p % Pow2(tags[p].k + 1) != 0 {
        return false;
      }
      tags[p] := Tag(tags[p].occupied, tags[p].k + 1);
      assert tags[..] == MergeAt(before, p, before[p].occupied);
      merged := true;
    }

    /** set_fit_mode. */
    method SetFitMode(mode: FitMode)
      modifies this`fitMode
      ensures fitMode == mode
    {
      fitMode := mode;
    }

    /** get_blocks_info: size and occupancy of every block, in address
        order; the sizes add up to the area. */
    method BlocksInfo() returns (r: seq<BlockInfo>)
      requires Valid()
      ensures r == Info(Layout())
      ensures TotalSize(r) == AreaSize()
    {
      ghost var w := Layout();
      var cur := 0;
      ghost var i := 0;
      r := [];
      while true
        invariant i < |w| && cur == w[i].offset
        invariant r == Info(w[..i])
        decreases |w| - i
      {
        WalkReadsTags(tags[..], AreaSize(), 0, i);
        r := r + [BlockInfo(Pow2(tags[cur].k), tags[cur].occupied)];
        assert w[..i + 1] == w[..i] + [w[i]];
        InfoAppend(w[..i], w[i]);
        WalkNext(tags[..], AreaSize(), 0, i);
        var next := NextBlock(cur);
        if next.None? {
          assert w[..i + 1] == w;
          break;
        }
        cur := next.value;
        i := i + 1;
      }
      TiledCovers(tags[..], AreaSize(), 0);
      InfoSize(w);
    }
  }

  /** The state of the split loop when the chosen block at p has come down
      to exponent kc: the buddies split off so far follow it. */
  ghost predicate SplitState(t: seq<Tag>, n: nat, w0: seq<Block>, j: nat, p: nat, size: nat, kc: nat)
  {
    n + 1 == |t| && p < |t| && j < |w0| && w0[j].offset == p
    && Tiled(t, n, 0) && Aligned(Walk(t, n, 0))
    && kc == t[p].k <= w0[j].tag.k && !t[p].occupied
    && SplitTarget(kc, size) == SplitTarget(w0[j].tag.k, size)
    && Walk(t, n, 0) == w0[..j] + [Block(p, Tag(false, kc))] + Buddies(p, kc, w0[j].tag.k) + w0[j + 1..]
  }

  lemma SplitStep(t: seq<Tag>, n: nat, w0: seq<Block>, j: nat, p: nat, size: nat, k: nat)
    requires SplitState(t, n, w0, j, p, size, k) && Pow2(k) > 2 * size && k > 4
    ensures p + Pow2(k - 1) + 1 < n
    ensures SplitState(SplitAt(t, p, false), n, w0, j, p, size, k - 1)
  {
    var k0 := w0[j].tag.k;
    SplitBlocksBuddies(w0, j, p, k, k0, false);
    assert Walk(t, n, 0)[j] == Block(p, Tag(false, k));
    SplitKeepsTiling(t, n, 0, j, false);
    SplitKeepsAligned(Walk(t, n, 0), j, false);
  }

  lemma MarkStep(t: seq<Tag>, n: nat, w0: seq<Block>, j: nat, p: nat, size: nat, kf: nat)
    requires SplitState(t, n, w0, j, p, size, kf) && !(Pow2(kf) > 2 * size && kf > 4)
    requires Fits(w0[j], size)
    ensures var t' := t[p := Tag(true, kf)];
      Tiled(t', n, 0) && Aligned(Walk(t', n, 0))
      && Walk(t', n, 0) == AllocatedWalk(w0, j, size)
      && j < |Walk(t', n, 0)| && Pow2(Walk(t', n, 0)[j].tag.k) - BlockHeaderSize >= size
  {
    var k0 := w0[j].tag.k;
    var wb := Walk(t, n, 0);
    assert wb[j] == Block(p, Tag(false, kf));
    assert SplitTarget(kf, size) == kf;
    SplitTargetFits(k0, size);
    RetagKeepsTiling(t, n, 0, j, true);
    RetagKeepsAligned(wb, j, true);
    ReplaceMiddle(w0[..j], Block(p, Tag(false, kf)), Block(p, Tag(true, kf)), Buddies(p, kf, k0) + w0[j + 1..]);
  }

  /** The state of the merge loop after c merges: on the walk (idx is
      Some(j)) the freed block has absorbed the c blocks after it; off the
      walk only the header at p has changed, and the walk has not. */
  ghost predicate MergeState(t: seq<Tag>, n: nat, t0: seq<Tag>, idx: Option<nat>, p: nat, c: nat)
  {
    n + 1 == |t| == |t0| && p < |t| && Tiled(t, n, 0) && Aligned(Walk(t, n, 0))
    && Tiled(t0, n, 0)
    && idx == FindOffset(Walk(t0, n, 0), p)
    && (idx.None? ==> t == t0[p := Tag(t0[p].occupied, t[p].k)])
    && (idx.Some? ==> Merging(Walk(t, n, 0), Walk(t0, n, 0), idx.value, Block(p, t[p]), c))
  }

  /** The walk w is the walk w0 whose j-th block, now b, has absorbed the c
      blocks after it. */
  ghost predicate Merging(w: seq<Block>, w0: seq<Block>, j: nat, b: Block, c: nat)
  {
    j + 1 + c <= |w0| && b.tag.occupied == w0[j].tag.occupied && b.tag.k == w0[j].tag.k + c
    && w == w0[..j] + [b] + w0[j + 1 + c..]
    && Absorbed(w0[j + 1..], b.offset, w0[j].tag.k) == c + Absorbed(w0[j + 1 + c..], b.offset, w0[j].tag.k + c)
  }

  lemma MergeStart(t0: seq<Tag>, n: nat, idx: Option<nat>, p: nat)
    requires n + 1 == |t0| && p < |t0| && Tiled(t0, n, 0) && Aligned(Walk(t0, n, 0))
    requires idx == FindOffset(Walk(t0, n, 0), p)
    ensures MergeState(t0, n, t0, idx, p, 0)
  {
    var w0 := Walk(t0, n, 0);
    match idx
    case None =>
      assert t0 == t0[p := Tag(t0[p].occupied, t0[p].k)];
    case Some(j) =>
      WalkReadsTags(t0, n, 0, j);
      assert w0 == w0[..j] + [Block(p, t0[p])] + w0[j + 1..];
  }

  /** One merge: the next block exists, is free, of the same exponent, and
      the block at p is aligned to twice its size. */
  lemma MergeStep(t: seq<Tag>, n: nat, t0: seq<Tag>, idx: Option<nat>, p: nat, c: nat)
    requires MergeState(t, n, t0, idx, p, c) && n <= Pow2(30)
    requires NextOffset(t, n, p).Some?
    requires var q := NextOffset(t, n, p).value;
      !t[q].occupied && t[q].k == t[p].k && p % Pow2(t[p].k + 1) == 0
    ensures t[p].k < 127
    ensures MergeState(MergeAt(t, p, t[p].occupied), n, t0, idx, p, c + 1)
  {
    var k := t[p].k;
    assert Pow2(k) < Pow2(30);
    ExponentBelow(k, 30);
    var t' := MergeAt(t, p, t[p].occupied);
    match idx
    case None =>
      OffWalkFrame(t0, t, n, p);
      OffWalkFrame(t0, t', n, p);
    case Some(j) =>
      MergeOnWalk(t, n, Walk(t0, n, 0), j, p, c);
  }

  /** A merge on the walk keeps the area tiled and aligned, and the walk
      one merge further along. */
  lemma MergeOnWalk(t: seq<Tag>, n: nat, w0: seq<Block>, j: nat, p: nat, c: nat)
    requires n + 1 == |t| && p < |t| && Tiled(t, n, 0) && Aligned(Walk(t, n, 0)) && t[p].k < 127
    requires Merging(Walk(t, n, 0), w0, j, Block(p, t[p]), c)
    requires NextOffset(t, n, p).Some?
    requires var q := NextOffset(t, n, p).value;
      !t[q].occupied && t[q].k == t[p].k && p % Pow2(t[p].k + 1) == 0
    ensures var t' := MergeAt(t, p, t[p].occupied);
      Tiled(t', n, 0) && Aligned(Walk(t', n, 0)) && Merging(Walk(t', n, 0), w0, j, Block(p, t'[p]), c + 1)
  {
    var t' := MergeAt(t, p, t[p].occupied);
    var cur := Walk(t, n, 0);
    var b := Block(p, t[p]);
    MergingAt(cur, w0, j, b, c);
    WalkNext(t, n, 0, j);
    WalkReadsTags(t, n, 0, j + 1);
    var b' := Block(p, Tag(t[p].occupied, t[p].k + 1));
    assert t'[p] == b'.tag;
    MergeKeepsTiling(t, n, 0, j, t[p].occupied);
    assert Walk(t', n, 0) == cur[..j] + [b'] + cur[j + 2..];
    MergeKeepsAligned(cur, j, t[p].occupied);
    MergingStep(cur, w0, j, b, c, Walk(t', n, 0), b');
  }

  lemma MergingAt(w: seq<Block>, w0: seq<Block>, j: nat, b: Block, c: nat)
    requires Merging(w, w0, j, b, c)
    ensures j < |w| && w[j] == b
  {
  }

  /** One more merge on the walk: the block after the merged one is free,
      of the same exponent, and the merged block is aligned to twice it. */
  lemma MergingStep(w: seq<Block>, w0: seq<Block>, j: nat, b: Block, c: nat, w': seq<Block>, b': Block)
    requires Merging(w, w0, j, b, c) && j + 1 < |w| && b.tag.k < 127
    requires !w[j + 1].tag.occupied && w[j + 1].tag.k == b.tag.k && b.offset % Pow2(b.tag.k + 1) == 0
    requires b' == Block(b.offset, Tag(b.tag.occupied, b.tag.k + 1)) && w' == w[..j] + [b'] + w[j + 2..]
    ensures Merging(w', w0, j, b', c + 1)
  {
    var k0 := w0[j].tag.k;
    assert w[j + 1] == w0[j + 1 + c];
    assert Absorbed(w0[j + 1..], b.offset, k0) == c + 1 + Absorbed(w0[j + 2 + c..], b.offset, k0 + c + 1) by {
      assert w0[j + 1 + c..][1..] == w0[j + 2 + c..];
    }
    assert w[..j] == w0[..j];
    assert w[j + 2..] == w0[j + 2 + c..];
  }

  /** Rewriting a header that is not on the walk changes nothing of it. */
  lemma OffWalkFrame(t0: seq<Tag>, t: seq<Tag>, n: nat, p: nat)
    requires n <= |t0| && |t| == |t0| && p < |t0|
    requires FindOffset(Walk(t0, n, 0), p) == None
    requires forall i | 0 <= i < |t0| && i != p :: t[i] == t0[i]
    ensures Walk(t, n, 0) == Walk(t0, n, 0)
    ensures Tiled(t, n, 0) <==> Tiled(t0, n, 0)
  {
    var w0 := Walk(t0, n, 0);
    WalkAbove(t0, n, 0);
    forall b | b in w0 ensures b.offset < |t0| && t[b.offset] == t0[b.offset] {
      var i :| 0 <= i < |w0| && w0[i] == b;
    }
    WalkFrame(t0, t, n, 0);
  }

  /** Whether the block at p absorbs the next one: that block exists, is
      free and of the same exponent, and p is aligned to twice the size. */
  predicate CanAbsorb(t: seq<Tag>, n: nat, p: nat)
    requires p < |t|
  {
    NextOffset(t, n, p).Some?
    && var q := NextOffset(t, n, p).value;
    q < |t| && !t[q].occupied && t[q].k == t[p].k && p % Pow2(t[p].k + 1) == 0
  }

  /** The two outcomes of one pass of the merge loop. */
  lemma MergeRoundFacts(t: seq<Tag>, n: nat, t0: seq<Tag>, idx: Option<nat>, p: nat, c: nat)
    requires MergeState(t, n, t0, idx, p, c) && n <= Pow2(30)
    ensures CanAbsorb(t, n, p) ==> t[p].k < 127 && MergeState(MergeAt(t, p, t[p].occupied), n, t0, idx, p, c + 1)
    ensures !CanAbsorb(t, n, p) && idx.Some? ==>
      Absorbed(Walk(t0, n, 0)[idx.value + 1..], p, Walk(t0, n, 0)[idx.value].tag.k) == c
  {
    if CanAbsorb(t, n, p) {
      MergeStep(t, n, t0, idx, p, c);
    } else {
      MergeStop(t, n, t0, idx, p, c);
    }
  }

  /** The loop stops: in the on-walk case nothing more is absorbed. */
  lemma MergeStop(t: seq<Tag>, n: nat, t0: seq<Tag>, idx: Option<nat>, p: nat, c: nat)
    requires MergeState(t, n, t0, idx, p, c)
    requires NextOffset(t, n, p).None?
      || (var q := NextOffset(t, n, p).value;
          t[q].occupied || t[q].k != t[p].k || p % Pow2(t[p].k + 1) != 0)
    ensures idx.Some? ==> Absorbed(Walk(t0, n, 0)[idx.value + 1..], p, Walk(t0, n, 0)[idx.value].tag.k) == c
  {
    var w0 := Walk(t0, n, 0);
    if idx.Some? {
      var j := idx.value;
      var k0 := w0[j].tag.k;
      var cur := Walk(t, n, 0);
      assert cur[j] == Block(p, t[p]);
      WalkNext(t, n, 0, j);
      if j + 1 + c < |w0| {
        assert cur[j + 1] == w0[j + 1 + c];
        WalkReadsTags(t, n, 0, j + 1);
      } else {
        assert w0[j + 1 + c..] == [];
      }
    }
  }

  /** The final write marks the block free. */
  lemma FreeStep(t: seq<Tag>, n: nat, t0: seq<Tag>, idx: Option<nat>, p: nat, c: nat)
    requires MergeState(t, n, t0, idx, p, c)
    requires idx.Some? ==> Absorbed(Walk(t0, n, 0)[idx.value + 1..], p, Walk(t0, n, 0)[idx.value].tag.k) == c
    ensures var t' := t[p := Tag(false, t[p].k)];
      Tiled(t', n, 0) && Aligned(Walk(t', n, 0))
      && match idx
         case None => Walk(t', n, 0) == Walk(t0, n, 0)
         case Some(j) => Walk(t', n, 0) == FreedWalk(Walk(t0, n, 0), j)
  {
    match idx
    case None =>
      var t' := t[p := Tag(false, t[p].k)];
      OffWalkFrame(t0, t, n, p);
      OffWalkFrame(t0, t', n, p);
    case Some(j) =>
      FreeStepOnWalk(t, n, Walk(t0, n, 0), j, p, c);
  }

  /** FreeStep for a header on the walk: the merged block is retagged free. */
  lemma FreeStepOnWalk(t: seq<Tag>, n: nat, w0: seq<Block>, j: nat, p: nat, c: nat)
    requires n + 1 == |t| && p < |t| && Tiled(t, n, 0) && Aligned(Walk(t, n, 0))
    requires Merging(Walk(t, n, 0), w0, j, Block(p, t[p]), c) && w0[j].offset == p
    requires Absorbed(w0[j + 1..], p, w0[j].tag.k) == c
    ensures var t' := t[p := Tag(false, t[p].k)];
      Tiled(t', n, 0) && Aligned(Walk(t', n, 0)) && Walk(t', n, 0) == FreedWalk(w0, j)
  {
    var t' := t[p := Tag(false, t[p].k)];
    var cur := Walk(t, n, 0);
    var freed := Block(p, Tag(false, t[p].k));
    assert cur[j] == Block(p, t[p]);
    RetagKeepsTiling(t, n, 0, j, false);
    RetagKeepsAligned(cur, j, false);
    ReplaceMiddle(w0[..j], Block(p, t[p]), freed, w0[j + 1 + c..]);
    assert Walk(t', n, 0) == w0[..j] + [freed] + w0[j + 1 + c..];
    assert FreedWalk(w0, j) == w0[..j] + [freed] + w0[j + 1 + c..];
  }

  lemma FreeOutcome(t0: seq<Tag>, t: seq<Tag>, n: nat, idx: Option<nat>, p: nat)
    requires n < |t0| == |t| && idx == FindOffset(Walk(t0, n, 0), p)
    requires match idx
      case None => Walk(t, n, 0) == Walk(t0, n, 0)
      case Some(j) => Walk(t, n, 0) == FreedWalk(Walk(t0, n, 0), j)
    ensures var w0 := Walk(t0, n, 0);
      (forall j | 0 <= j < |w0| && w0[j].offset == p :: Walk(t, n, 0) == FreedWalk(w0, j))
      && ((forall j | 0 <= j < |w0| :: w0[j].offset != p) ==> Walk(t, n, 0) == w0)
  {
    WalkIncreasing(t0, n, 0);
  }

  function TotalSize(r: seq<BlockInfo>): nat
  {
    if r == [] then 0 else r[0].size + TotalSize(r[1..])
  }

  lemma InfoAppend(w: seq<Block>, b: Block)
    ensures Info(w + [b]) == Info(w) + [BlockInfo(Pow2(b.tag.k), b.tag.occupied)]
  {
  }

  lemma {:induction false} InfoSize(w: seq<Block>)
    ensures TotalSize(Info(w)) == Span(w)
  {
    if w != [] {
      InfoSize(w[1..]);
      assert Info(w)[1..] == Info(w[1..]);
    }
  }
}
