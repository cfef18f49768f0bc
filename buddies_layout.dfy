/** The block area of the buddy allocator, read as a sequence of one-byte
    block headers indexed by their offset from the area's first byte, and the
    walk from header to header that every operation of the allocator makes. */
module BuddiesLayout {
  import opened Powers
  import opened Wrappers
  import opened FitModes

  /** sizeof(BuddyAllocatorMetadata) on x86-64: logger*, memory_resource*,
      fit_mode, size_t, std::mutex (40 bytes) and a begin pointer. */
  const ArenaHeaderSize: nat := 80
  /** sizeof(BuddyAllocatorBlockMetadata): one packed byte. */
  const BlockHeaderSize: nat := 1

  /** The 7-bit `size` field of a block header holds an exponent. */
  type Exponent = k: nat | k < 128

  /** One block header: the block spans 2^k bytes, header included. */
  datatype Tag = Tag(occupied: bool, k: Exponent)

  /** The header byte: `occupied` in bit 0, the exponent in bits 1 to 7. */
  function Pack(t: Tag): (b: nat)
    ensures b < 256
  {
    2 * t.k + (if t.occupied then 1 else 0)
  }

  function Unpack(b: nat): (t: Tag)
    requires b < 256
  {
    Tag(b % 2 == 1, b / 2)
  }

  /** Every header byte decodes to one tag and back. */
  lemma PackRoundTrip(t: Tag, b: nat)
    requires b < 256
    ensures Unpack(Pack(t)) == t
    ensures Pack(Unpack(b)) == b
  {
  }

  /** What nearest_greater_k_of_2 promises: the least k with size <= 2^k,
      and size_t(-1) for a size of zero. */
  ghost predicate IsCeilLog2(size: nat, r: nat)
  {
    if size == 0 then r == Pow2(64) - 1
    else size <= Pow2(r) && (r == 0 || Pow2(r - 1) < size)
  }

  predicate IsPow2OrZero(n: nat)
  {
    n == 0 || n == Pow2(FloorLog2(n))
  }

  lemma DivUnique(n: nat, d: nat, q: nat, r: nat)
    requires d > 0 && n == q * d + r && r < d
    ensures n / d == q
  {
    var q', r' := n / d, n % d;
    assert q' * d + r' == q * d + r;
    if q' > q {
      assert q' * d == q * d + (q' - q) * d;
      MulAtLeast(q' - q, d);
    } else if q' < q {
      assert q * d == q' * d + (q - q') * d;
      MulAtLeast(q - q', d);
    }
  }

  lemma MulAtLeast(x: nat, d: nat)
    requires x >= 1
    ensures x * d >= d
  {
  }

  lemma DivDouble(n: nat, p: nat)
    requires p > 0
    ensures n / (2 * p) == (n / p) / 2
  {
    var q := n / p;
    var r := n % p;
    assert n == q * p + r;
    var q2 := q / 2;
    var b := q % 2;
    assert q == 2 * q2 + b;
    assert q * p == q2 * (2 * p) + b * p;
    assert b * p + r < 2 * p;
    DivUnique(n, 2 * p, q2, b * p + r);
  }

  lemma DivPow2Step(n: nat, i: nat)
    ensures n / Pow2(i + 1) == (n / Pow2(i)) / 2
    ensures n / Pow2(i) == 2 * (n / Pow2(i + 1)) + (n / Pow2(i)) % 2
  {
    DivDouble(n, Pow2(i));
  }

  /** Appending bit `bit` to `high` keeps a power of two (or zero) only
      by appending a zero, or by making the first one bit. */
  lemma Pow2OrZeroStep(high: nat, bit: nat, low: nat)
    requires bit < 2 && low == 2 * high + bit
    ensures IsPow2OrZero(low) <==> (if bit == 0 then IsPow2OrZero(high) else high == 0)
  {
    if high > 0 {
      var f := FloorLog2(low);
      assert f >= 1;
      assert Pow2(f) == 2 * Pow2(f - 1);
      if bit == 0 {
        assert FloorLog2(low) == FloorLog2(high) + 1;
      }
    }
  }

  /** The constexpr helper that gives the exponent of the smallest power of
      two at least `size`: it counts the one bits of `size` from bit 63 down,
      remembering the highest one. */
  method NearestGreaterKOf2(size: nat) returns (r: nat)
    requires size < Pow2(64)
    ensures IsCeilLog2(size, r)
  {
    var ones: nat := 0;
    var index := -1;
    var i := 63;
    ghost var high: nat := 0;
    assert high == size / Pow2(64) by {
      DivUnique(size, Pow2(64), 0, size);
    }
    assert Counted(size, ones, index, high);
    while i >= 0
      invariant -1 <= i <= 63
      invariant high == size / Pow2(i + 1)
      invariant Counted(size, ones, index, high)
    {
      ones, index, high := CountBit(size, i, ones, index, high);
      i := i - 1;
    }
    DivPow2Zero(size);
    var res := if ones <= 1 then index else index + 1;
    r := if res < 0 then res + Pow2(64) else res;
    CeilFromCount(size, ones, index, r);
  }

  lemma DivPow2Zero(n: nat)
    ensures n / Pow2(0) == n
  {
    assert Pow2(0) == 1;
  }

  /** What the count leaves: the highest one bit, bumped by one unless it
      is the only one, and size_t(-1) when there is none. */
  lemma CeilFromCount(size: nat, ones: nat, index: int, r: nat)
    requires Counted(size, ones, index, size)
    requires r == if ones == 0 then Pow2(64) - 1 else if ones == 1 then index else index + 1
    ensures IsCeilLog2(size, r)
  {
    if size > 0 {
      var f := FloorLog2(size);
      if ones > 1 {
        assert Pow2(f) != size;
        assert Pow2(f + 1) == 2 * Pow2(f);
      } else if f > 0 {
        assert Pow2(f) == 2 * Pow2(f - 1);
      }
    }
  }

  /** What the loop of nearest_greater_k_of_2 knows once it has read the
      bits of `size` above those of `low`, whose value is `high`: `ones`
      one bits seen, the first of them at `index`. */
  ghost predicate Counted(size: nat, ones: nat, index: int, high: nat)
  {
    && (ones == 0 <==> high == 0)
    && (ones == 0 ==> index == -1)
    && (ones > 0 ==> 0 <= index && size >= 1 && index == FloorLog2(size))
    && (ones <= 1 <==> IsPow2OrZero(high))
  }

  /** One round of the loop of nearest_greater_k_of_2: bit i of `size` is
      counted, and remembered when it is the highest one. */
  method CountBit(size: nat, i: nat, ones: nat, index: int, ghost high: nat) returns (ones': nat, index': int, ghost low: nat)
    requires high == size / Pow2(i + 1) && Counted(size, ones, index, high)
    ensures low == size / Pow2(i) && Counted(size, ones', index', low)
  {
    ones', index' := ones, index;
    DivPow2Step(size, i);
    low := size / Pow2(i);
    var bit := (size / Pow2(i)) % 2;
    assert low == 2 * high + bit;
    if bit == 1 {
      if ones == 0 {
        index' := i;
        HighestBit(size, i);
      }
      ones' := ones + 1;
    }
    Pow2OrZeroStep(high, bit, low);
  }

  /** A size whose bits above i are clear and whose bit i is set has its
      floor log2 at i. */
  lemma HighestBit(size: nat, i: nat)
    requires size / Pow2(i) == 1
    ensures size >= 1 && FloorLog2(size) == i
  {
    DivMulBound(size, Pow2(i));
    FloorLog2Unique(size, i);
  }

  lemma DivMulBound(n: nat, p: nat)
    requires p >= 1 && n / p == 1
    ensures p <= n < 2 * p
  {
  }

  /** The exponent the class reserves for its smallest block: that of the
      one-byte header, which is zero. */
  method MinK() returns (k: nat)
    ensures k == 0
  {
    k := NearestGreaterKOf2(BlockHeaderSize);
  }

  /** A block header found by walking the area, with its offset. */
  datatype Block = Block(offset: nat, tag: Tag)

  /** next_block: the header 2^k bytes on, provided it lies below the
      area's last byte but one (offsets are from the area's first byte, and
      `n` is the area's size). */
  function NextOffset(t: seq<Tag>, n: nat, o: nat): (r: Option<nat>)
    requires o < |t|
    ensures r.Some? ==> o < r.value && r.value + 1 < n
    ensures r.None? ==> o + Pow2(t[o].k) + 1 >= n
  {
    if o + Pow2(t[o].k) + 1 < n then Some(o + Pow2(t[o].k)) else None
  }

  /** The headers met when walking the area from offset `o`. */
  function Walk(t: seq<Tag>, n: nat, o: nat): (w: seq<Block>)
    requires n <= |t| && o < |t|
    ensures |w| >= 1 && w[0] == Block(o, t[o])
    decreases |t| - o
  {
    match NextOffset(t, n, o)
    case None => [Block(o, t[o])]
    case Some(q) => [Block(o, t[o])] + Walk(t, n, q)
  }

  /** The walk from `o` covers [o, n) with adjacent blocks, none past the
      end and none left unvisited. */
  ghost predicate Tiled(t: seq<Tag>, n: nat, o: nat)
    requires n <= |t| && o < |t|
    decreases |t| - o
  {
    var e := o + Pow2(t[o].k);
    e == n || (e + 1 < n && Tiled(t, n, e))
  }

  function Span(w: seq<Block>): nat
  {
    if w == [] then 0 else Pow2(w[0].tag.k) + Span(w[1..])
  }

  /** Coverage: the blocks of a tiled area add up to the area. */
  lemma {:induction false} TiledCovers(t: seq<Tag>, n: nat, o: nat)
    requires n <= |t| && o < |t| && Tiled(t, n, o)
    ensures Span(Walk(t, n, o)) == n - o
    decreases |t| - o
  {
    var w := Walk(t, n, o);
    match NextOffset(t, n, o)
    case None =>
      assert w[1..] == [];
    case Some(q) =>
      TiledCovers(t, n, q);
      assert w[1..] == Walk(t, n, q);
  }

  /** In a tiled area every block of the walk starts where the one before
      it ends, and the last one ends at the area's end. */
  lemma {:induction false} TiledAdjacent(t: seq<Tag>, n: nat, o: nat, j: nat)
    requires n <= |t| && o < |t| && Tiled(t, n, o)
    requires j < |Walk(t, n, o)|
    ensures var w := Walk(t, n, o);
      if j + 1 < |w| then w[j + 1].offset == w[j].offset + Pow2(w[j].tag.k)
      else w[j].offset + Pow2(w[j].tag.k) == n
    decreases |t| - o
  {
    if j > 0 {
      var q := NextOffset(t, n, o).value;
      TiledAdjacent(t, n, q, j - 1);
    }
  }

  lemma {:induction false} WalkAbove(t: seq<Tag>, n: nat, o: nat)
    requires n <= |t| && o < |t|
    ensures forall b | b in Walk(t, n, o) :: o <= b.offset < |t|
    ensures forall j | 1 <= j < |Walk(t, n, o)| :: o < Walk(t, n, o)[j].offset
    decreases |t| - o
  {
    match NextOffset(t, n, o)
    case None =>
    case Some(q) =>
      WalkAbove(t, n, q);
      var w := Walk(t, n, o);
      forall j | 1 <= j < |w| ensures o < w[j].offset {
        assert w[j] == Walk(t, n, q)[j - 1];
      }
  }

  /** Every header on the walk is the header stored at its offset. */
  lemma {:induction false} WalkReadsTags(t: seq<Tag>, n: nat, o: nat, j: nat)
    requires n <= |t| && o < |t| && j < |Walk(t, n, o)|
    ensures Walk(t, n, o)[j].offset < |t|
    ensures Walk(t, n, o)[j].tag == t[Walk(t, n, o)[j].offset]
    decreases |t| - o
  {
    if j > 0 {
      WalkReadsTags(t, n, NextOffset(t, n, o).value, j - 1);
    }
  }

  /** The walk from the j-th header on is the tail of the walk. */
  lemma {:induction false} WalkSuffix(t: seq<Tag>, n: nat, o: nat, j: nat)
    requires n <= |t| && o < |t| && j < |Walk(t, n, o)|
    ensures Walk(t, n, o)[j].offset < |t|
    ensures Walk(t, n, Walk(t, n, o)[j].offset) == Walk(t, n, o)[j..]
    decreases |t| - o
  {
    WalkReadsTags(t, n, o, j);
    if j > 0 {
      var q := NextOffset(t, n, o).value;
      WalkSuffix(t, n, q, j - 1);
      assert Walk(t, n, o)[j..] == Walk(t, n, q)[j - 1..];
    }
  }

  /** The walk from the j-th header goes on to the (j+1)-th, or stops. */
  lemma WalkNext(t: seq<Tag>, n: nat, o: nat, j: nat)
    requires n <= |t| && o < |t| && j < |Walk(t, n, o)|
    ensures Walk(t, n, o)[j].offset < |t|
    ensures NextOffset(t, n, Walk(t, n, o)[j].offset)
      == if j + 1 < |Walk(t, n, o)| then Some(Walk(t, n, o)[j + 1].offset) else None
  {
    WalkSuffix(t, n, o, j);
    var w := Walk(t, n, o);
    var p := w[j].offset;
    assert Walk(t, n, p) == w[j..];
    match NextOffset(t, n, p)
    case None =>
    case Some(q) =>
      assert w[j + 1] == Walk(t, n, p)[1];
  }

  /** Writes to headers off the walk change neither the walk nor the
      tiling. */
  lemma {:induction false} WalkFrame(t: seq<Tag>, t': seq<Tag>, n: nat, o: nat)
    requires n <= |t| && |t'| == |t| && o < |t|
    requires forall b | b in Walk(t, n, o) :: b.offset < |t| && t'[b.offset] == t[b.offset]
    ensures Walk(t', n, o) == Walk(t, n, o)
    ensures Tiled(t', n, o) <==> Tiled(t, n, o)
    decreases |t| - o
  {
    assert Walk(t, n, o)[0] == Block(o, t[o]);
    assert t'[o] == t[o];
    match NextOffset(t, n, o)
    case None =>
    case Some(q) =>
      assert Walk(t, n, o)[1..] == Walk(t, n, q);
      forall b | b in Walk(t, n, q) ensures b.offset < |t| && t'[b.offset] == t[b.offset] {
        assert b in Walk(t, n, o)[1..];
      }
      WalkFrame(t, t', n, q);
  }

  /** Rewriting a header on the walk without changing its exponent changes
      only that block's occupied bit. */
  lemma {:induction false} RetagKeepsTiling(t: seq<Tag>, n: nat, o: nat, j: nat, occupied: bool)
    requires n <= |t| && o < |t| && Tiled(t, n, o) && j < |Walk(t, n, o)|
    ensures var w := Walk(t, n, o); var p := w[j].offset;
      p < |t|
      && var t' := t[p := Tag(occupied, w[j].tag.k)];
      Tiled(t', n, o) && Walk(t', n, o) == w[j := Block(p, Tag(occupied, w[j].tag.k))]
    decreases |t| - o
  {
    var w := Walk(t, n, o);
    WalkReadsTags(t, n, o, j);
    WalkAbove(t, n, o);
    var p := w[j].offset;
    var t' := t[p := Tag(occupied, w[j].tag.k)];
    if j == 0 {
      match NextOffset(t, n, o)
      case None =>
      case Some(q) =>
        WalkAbove(t, n, q);
        WalkFrame(t, t', n, q);
    } else {
      var q := NextOffset(t, n, o).value;
      assert w[1..] == Walk(t, n, q);
      assert w[j] == Walk(t, n, q)[j - 1];
      RetagKeepsTiling(t, n, q, j - 1, occupied);
    }
  }

  /** The header writes of one step of the allocator's split loop: the
      block at p, of exponent k, takes exponent k - 1, and its upper half
      gets a free header of exponent k - 1. */
  function SplitAt(t: seq<Tag>, p: nat, occupied: bool): (t': seq<Tag>)
    requires p < |t| && t[p].k >= 1 && p + Pow2(t[p].k - 1) < |t|
    ensures |t'| == |t|
  {
    t[p := Tag(occupied, t[p].k - 1)][p + Pow2(t[p].k - 1) := Tag(false, t[p].k - 1)]
  }

  /** The header write of one step of the deallocator's merge loop: the
      block at p grows to exponent k + 1. */
  function MergeAt(t: seq<Tag>, p: nat, occupied: bool): (t': seq<Tag>)
    requires p < |t| && t[p].k < 127
    ensures |t'| == |t|
  {
    t[p := Tag(occupied, t[p].k + 1)]
  }

  lemma SplitHead(t: seq<Tag>, n: nat, p: nat, occupied: bool)
    requires n <= |t| && p < |t| && Tiled(t, n, p) && t[p].k >= 2
    ensures var k := t[p].k; var m := p + Pow2(k - 1);
      m + 1 < n
      && Tiled(SplitAt(t, p, occupied), n, p)
      && Walk(SplitAt(t, p, occupied), n, p)
         == [Block(p, Tag(occupied, k - 1)), Block(m, Tag(false, k - 1))] + Walk(t, n, p)[1..]
  {
    var k := t[p].k;
    var m := p + Pow2(k - 1);
    var e := p + Pow2(k);
    var t' := SplitAt(t, p, occupied);
    SplitHeadFirst(t, n, p, occupied);
    if e == n {
      assert NextOffset(t', n, m) == None;
      assert Walk(t, n, p)[1..] == [];
    } else {
      SplitHeadRest(t, n, p, occupied);
    }
  }

  /** The first half of a split block points at the second. */
  lemma SplitHeadFirst(t: seq<Tag>, n: nat, p: nat, occupied: bool)
    requires n <= |t| && p < |t| && Tiled(t, n, p) && t[p].k >= 2
    ensures var k := t[p].k; var m := p + Pow2(k - 1);
      m + 1 < n && m + Pow2(k - 1) == p + Pow2(k)
      && SplitAt(t, p, occupied)[p] == Tag(occupied, k - 1)
      && SplitAt(t, p, occupied)[m] == Tag(false, k - 1)
      && NextOffset(SplitAt(t, p, occupied), n, p) == Some(m)
  {
    var k := t[p].k;
    assert Pow2(k) == 2 * Pow2(k - 1);
    assert Pow2(k - 1) == 2 * Pow2(k - 2);
  }

  /** Past the second half of a split block the walk is unchanged. */
  lemma SplitHeadRest(t: seq<Tag>, n: nat, p: nat, occupied: bool)
    requires n <= |t| && p < |t| && Tiled(t, n, p) && t[p].k >= 2
    requires p + Pow2(t[p].k) != n
    requires var k := t[p].k; var m := p + Pow2(k - 1);
      m + 1 < n && m + Pow2(k - 1) == p + Pow2(k)
      && SplitAt(t, p, occupied)[p] == Tag(occupied, k - 1)
      && SplitAt(t, p, occupied)[m] == Tag(false, k - 1)
      && NextOffset(SplitAt(t, p, occupied), n, p) == Some(m)
    ensures var k := t[p].k; var m := p + Pow2(k - 1);
      Tiled(SplitAt(t, p, occupied), n, p)
      && Walk(SplitAt(t, p, occupied), n, p)
         == [Block(p, Tag(occupied, k - 1)), Block(m, Tag(false, k - 1))] + Walk(t, n, p)[1..]
  {
    var k := t[p].k;
    var m := p + Pow2(k - 1);
    var e := p + Pow2(k);
    var t' := SplitAt(t, p, occupied);
    assert NextOffset(t, n, p) == Some(e);
    assert Walk(t, n, p) == [Block(p, t[p])] + Walk(t, n, e);
    SplitFrameAbove(t, n, p, occupied);
    assert NextOffset(t', n, m) == Some(e);
    WalkTwoSteps(t', n, p, m, e);
  }

  /** A split at p leaves the walk from the end of the split block alone. */
  lemma SplitFrameAbove(t: seq<Tag>, n: nat, p: nat, occupied: bool)
    requires n <= |t| && p < |t| && t[p].k >= 1 && p + Pow2(t[p].k) + 1 < n
    requires Tiled(t, n, p + Pow2(t[p].k))
    ensures var e := p + Pow2(t[p].k);
      Walk(SplitAt(t, p, occupied), n, e) == Walk(t, n, e) && Tiled(SplitAt(t, p, occupied), n, e)
  {
    var k := t[p].k;
    var e := p + Pow2(k);
    var t' := SplitAt(t, p, occupied);
    assert Pow2(k) == 2 * Pow2(k - 1);
    WalkAbove(t, n, e);
    forall b | b in Walk(t, n, e)
      ensures b.offset < |t| && t'[b.offset] == t[b.offset]
    {
      assert e <= b.offset;
    }
    WalkFrame(t, t', n, e);
  }

  /** Two headers that lead to a tiled walk from e start a tiled walk. */
  lemma WalkTwoSteps(t: seq<Tag>, n: nat, p: nat, m: nat, e: nat)
    requires n <= |t| && p < |t| && m < |t| && e < |t|
    requires NextOffset(t, n, p) == Some(m) && NextOffset(t, n, m) == Some(e) && Tiled(t, n, e)
    ensures Tiled(t, n, p)
    ensures Walk(t, n, p) == [Block(p, t[p]), Block(m, t[m])] + Walk(t, n, e)
  {
    assert Walk(t, n, m) == [Block(m, t[m])] + Walk(t, n, e);
    assert Tiled(t, n, m);
  }

  /** The walk after a split of its j-th block. */
  function SplitBlocks(w: seq<Block>, j: nat, occupied: bool): (r: seq<Block>)
    requires j < |w| && w[j].tag.k >= 1
    ensures |r| == |w| + 1
  {
    var p := w[j].offset;
    var k := w[j].tag.k;
    w[..j] + [Block(p, Tag(occupied, k - 1)), Block(p + Pow2(k - 1), Tag(false, k - 1))] + w[j + 1..]
  }

  lemma SplitBlocksCons(b: Block, w: seq<Block>, j: nat, occupied: bool)
    requires 1 <= j < |w| + 1 && w[j - 1].tag.k >= 1
    ensures SplitBlocks([b] + w, j, occupied) == [b] + SplitBlocks(w, j - 1, occupied)
  {
    assert ([b] + w)[..j] == [b] + w[..j - 1];
    assert ([b] + w)[j + 1..] == w[j..];
  }

  /** One step of the allocator's split loop keeps the area tiled: the
      j-th block, of exponent k >= 2, becomes two buddies of exponent k - 1
      and the walk meets both. */
  lemma {:induction false} SplitKeepsTiling(t: seq<Tag>, n: nat, o: nat, j: nat, occupied: bool)
    requires n <= |t| && o < |t| && Tiled(t, n, o) && j < |Walk(t, n, o)|
    requires Walk(t, n, o)[j].tag.k >= 2
    ensures var w := Walk(t, n, o); var p := w[j].offset;
      p + Pow2(w[j].tag.k - 1) + 1 < n && t[p] == w[j].tag
      && Tiled(SplitAt(t, p, occupied), n, o)
      && Walk(SplitAt(t, p, occupied), n, o) == SplitBlocks(w, j, occupied)
    decreases |t| - o
  {
    if j == 0 {
      SplitKeepsTilingHead(t, n, o, occupied);
    } else {
      var w := Walk(t, n, o);
      var q := NextOffset(t, n, o).value;
      var ws := Walk(t, n, q);
      assert w == [Block(o, t[o])] + ws;
      assert w[j] == ws[j - 1];
      SplitKeepsTiling(t, n, q, j - 1, occupied);
      SplitKeepsTilingCons(t, n, o, q, j, occupied);
    }
  }

  /** SplitKeepsTiling for the first block of the walk. */
  lemma SplitKeepsTilingHead(t: seq<Tag>, n: nat, o: nat, occupied: bool)
    requires n <= |t| && o < |t| && Tiled(t, n, o) && t[o].k >= 2
    ensures var w := Walk(t, n, o);
      o + Pow2(w[0].tag.k - 1) + 1 < n && t[o] == w[0].tag
      && Tiled(SplitAt(t, o, occupied), n, o)
      && Walk(SplitAt(t, o, occupied), n, o) == SplitBlocks(w, 0, occupied)
  {
    var w := Walk(t, n, o);
    SplitHead(t, n, o, occupied);
    assert w[..0] == [];
  }

  /** The inductive step of SplitKeepsTiling: a split behind the first
      block of the walk from o, given the split on the walk from the next
      header q. */
  lemma SplitKeepsTilingCons(t: seq<Tag>, n: nat, o: nat, q: nat, j: nat, occupied: bool)
    requires n <= |t| && o < |t| && q < |t| && NextOffset(t, n, o) == Some(q)
    requires 0 < j < |Walk(t, n, o)| && Walk(t, n, o) == [Block(o, t[o])] + Walk(t, n, q)
    requires var w := Walk(t, n, q); var p := w[j - 1].offset;
      j - 1 < |w| && w[j - 1].tag.k >= 2 && p + Pow2(w[j - 1].tag.k - 1) + 1 < n && t[p] == w[j - 1].tag
      && Tiled(SplitAt(t, p, occupied), n, q)
      && Walk(SplitAt(t, p, occupied), n, q) == SplitBlocks(w, j - 1, occupied)
    ensures var w := Walk(t, n, o); var p := w[j].offset;
      p + Pow2(w[j].tag.k - 1) + 1 < n && t[p] == w[j].tag
      && Tiled(SplitAt(t, p, occupied), n, o)
      && Walk(SplitAt(t, p, occupied), n, o) == SplitBlocks(w, j, occupied)
  {
    var ws := Walk(t, n, q);
    var p := ws[j - 1].offset;
    WalkAbove(t, n, q);
    assert q <= ws[j - 1].offset;
    SplitBehind(t, n, o, q, p, occupied);
    SplitBlocksCons(Block(o, t[o]), ws, j, occupied);
  }

  /** A split at p leaves the block at o, which lies before p, untouched. */
  lemma SplitBehind(t: seq<Tag>, n: nat, o: nat, q: nat, p: nat, occupied: bool)
    requires n <= |t| && o < |t| && NextOffset(t, n, o) == Some(q) && q <= p
    requires p < |t| && t[p].k >= 1 && p + Pow2(t[p].k - 1) < |t|
    requires Tiled(SplitAt(t, p, occupied), n, q)
    ensures Tiled(SplitAt(t, p, occupied), n, o)
    ensures Walk(SplitAt(t, p, occupied), n, o) == [Block(o, t[o])] + Walk(SplitAt(t, p, occupied), n, q)
  {
    var t' := SplitAt(t, p, occupied);
    assert t'[o] == t[o];
    assert NextOffset(t', n, o) == Some(q);
  }

  lemma MergeHead(t: seq<Tag>, n: nat, p: nat, occupied: bool)
    requires n <= |t| && p < |t| && Tiled(t, n, p) && |Walk(t, n, p)| >= 2
    requires Walk(t, n, p)[1].tag.k == t[p].k < 127
    ensures var k := t[p].k;
      Tiled(MergeAt(t, p, occupied), n, p)
      && Walk(MergeAt(t, p, occupied), n, p) == [Block(p, Tag(occupied, k + 1))] + Walk(t, n, p)[2..]
  {
    var k := t[p].k;
    var w := Walk(t, n, p);
    var q := NextOffset(t, n, p).value;
    assert w[1..] == Walk(t, n, q);
    assert w[1] == Block(q, t[q]);
    assert q == p + Pow2(k);
    var e := q + Pow2(k);
    assert Pow2(k + 1) == 2 * Pow2(k);
    var t' := MergeAt(t, p, occupied);
    assert Tiled(t, n, q);
    if e == n {
      assert NextOffset(t', n, p) == None;
      assert NextOffset(t, n, q) == None;
      assert w[2..] == [];
    } else {
      assert NextOffset(t, n, q) == Some(e);
      assert NextOffset(t', n, p) == Some(e);
      assert w[2..] == Walk(t, n, q)[1..] == Walk(t, n, e);
      MergeFrameAbove(t, n, p, e, occupied);
    }
  }

  /** A merge at p leaves the walk from e, past p, alone. */
  lemma MergeFrameAbove(t: seq<Tag>, n: nat, p: nat, e: nat, occupied: bool)
    requires n <= |t| && p < e < |t| && t[p].k < 127 && Tiled(t, n, e)
    requires NextOffset(MergeAt(t, p, occupied), n, p) == Some(e)
    ensures Tiled(MergeAt(t, p, occupied), n, p)
    ensures Walk(MergeAt(t, p, occupied), n, p) == [Block(p, Tag(occupied, t[p].k + 1))] + Walk(t, n, e)
  {
    var t' := MergeAt(t, p, occupied);
    WalkAbove(t, n, e);
    WalkFrame(t, t', n, e);
    assert Walk(t', n, p) == [Block(p, t'[p])] + Walk(t', n, e);
  }

  /** One step of the deallocator's merge loop keeps the area tiled: the
      j-th block absorbs the next one, which has the same exponent, and the
      merged block keeps the first header. */
  lemma {:induction false} MergeKeepsTiling(t: seq<Tag>, n: nat, o: nat, j: nat, occupied: bool)
    requires n <= |t| && o < |t| && Tiled(t, n, o) && j + 1 < |Walk(t, n, o)|
    requires Walk(t, n, o)[j + 1].tag.k == Walk(t, n, o)[j].tag.k < 127
    ensures var w := Walk(t, n, o); var p := w[j].offset; var k := w[j].tag.k;
      p < |t| && t[p] == w[j].tag
      && Tiled(MergeAt(t, p, occupied), n, o)
      && Walk(MergeAt(t, p, occupied), n, o) == w[..j] + [Block(p, Tag(occupied, k + 1))] + w[j + 2..]
    decreases |t| - o
  {
    var w := Walk(t, n, o);
    if j == 0 {
      WalkReadsTags(t, n, o, j);
      MergeHead(t, n, o, occupied);
    } else {
      var q := NextOffset(t, n, o).value;
      assert w[1..] == Walk(t, n, q);
      assert w[j] == Walk(t, n, q)[j - 1];
      assert w[j + 1] == Walk(t, n, q)[j];
      MergeKeepsTiling(t, n, q, j - 1, occupied);
      MergeKeepsTilingCons(t, n, o, q, j, occupied);
    }
  }

  /** The inductive step of MergeKeepsTiling: a merge behind the first
      block of the walk from o, given the merge on the walk from the next
      header q. */
  lemma MergeKeepsTilingCons(t: seq<Tag>, n: nat, o: nat, q: nat, j: nat, occupied: bool)
    requires n <= |t| && o < |t| && q < |t| && NextOffset(t, n, o) == Some(q)
    requires 0 < j && j + 1 < |Walk(t, n, o)| && Walk(t, n, o)[1..] == Walk(t, n, q)
    requires var ws := Walk(t, n, q); var p := ws[j - 1].offset; var k := ws[j - 1].tag.k;
      j < |ws| && k < 127 && p < |t| && t[p] == ws[j - 1].tag
      && Tiled(MergeAt(t, p, occupied), n, q)
      && Walk(MergeAt(t, p, occupied), n, q) == ws[..j - 1] + [Block(p, Tag(occupied, k + 1))] + ws[j + 1..]
    ensures var w := Walk(t, n, o); var p := w[j].offset; var k := w[j].tag.k;
      p < |t| && t[p] == w[j].tag && k < 127
      && Tiled(MergeAt(t, p, occupied), n, o)
      && Walk(MergeAt(t, p, occupied), n, o) == w[..j] + [Block(p, Tag(occupied, k + 1))] + w[j + 2..]
  {
    var w := Walk(t, n, o);
    var ws := Walk(t, n, q);
    assert w[j] == ws[j - 1];
    var p := w[j].offset;
    var k := w[j].tag.k;
    WalkAbove(t, n, q);
    var t' := MergeAt(t, p, occupied);
    assert o < q <= p;
    assert t'[o] == t[o];
    assert NextOffset(t', n, o) == Some(q);
    assert Walk(t', n, o) == [Block(o, t[o])] + Walk(t', n, q);
    assert w[..j] == [Block(o, t[o])] + ws[..j - 1];
    assert w[j + 2..] == ws[j + 1..];
  }

  /** Buddy alignment: every block starts at a multiple of its own size. */
  ghost predicate Aligned(w: seq<Block>)
  {
    forall i | 0 <= i < |w| :: w[i].offset % Pow2(w[i].tag.k) == 0
  }

  lemma HalfAligned(p: nat, k: nat)
    requires k >= 1 && p % Pow2(k) == 0
    ensures p % Pow2(k - 1) == 0 && (p + Pow2(k - 1)) % Pow2(k - 1) == 0
  {
    var h := Pow2(k - 1);
    var c := p / Pow2(k);
    assert Pow2(k) == 2 * h;
    assert p == c * (2 * h);
    assert p == (2 * c) * h;
    ModMultiple(2 * c, h);
    assert p + h == (2 * c + 1) * h;
    ModMultiple(2 * c + 1, h);
  }

  lemma ModMultiple(c: nat, d: nat)
    requires d > 0
    ensures (c * d) % d == 0
  {
    DivUnique(c * d, d, c, 0);
  }

  lemma SplitKeepsAligned(w: seq<Block>, j: nat, occupied: bool)
    requires j < |w| && w[j].tag.k >= 1 && Aligned(w)
    ensures Aligned(SplitBlocks(w, j, occupied))
  {
    HalfAligned(w[j].offset, w[j].tag.k);
    var r := SplitBlocks(w, j, occupied);
    forall i | 0 <= i < |r| ensures r[i].offset % Pow2(r[i].tag.k) == 0 {
      if i > j + 1 {
        assert r[i] == w[i - 1];
      } else if i < j {
        assert r[i] == w[i];
      }
    }
  }

  lemma ReplaceMiddle<T>(a: seq<T>, x: T, y: T, b: seq<T>)
    ensures (a + [x] + b)[|a| := y] == a + [y] + b
  {
  }

  lemma RetagKeepsAligned(w: seq<Block>, j: nat, occupied: bool)
    requires j < |w| && Aligned(w)
    ensures Aligned(w[j := Block(w[j].offset, Tag(occupied, w[j].tag.k))])
  {
  }

  /** The walk after the j-th block absorbed the next one. */
  function MergeBlocks(w: seq<Block>, j: nat, occupied: bool): (r: seq<Block>)
    requires j + 1 < |w| && w[j].tag.k < 127
    ensures |r| == |w| - 1
  {
    w[..j] + [Block(w[j].offset, Tag(occupied, w[j].tag.k + 1))] + w[j + 2..]
  }

  lemma MergeKeepsAligned(w: seq<Block>, j: nat, occupied: bool)
    requires j + 1 < |w| && w[j].tag.k < 127 && Aligned(w)
    requires w[j].offset % Pow2(w[j].tag.k + 1) == 0
    ensures Aligned(MergeBlocks(w, j, occupied))
  {
    var r := MergeBlocks(w, j, occupied);
    forall i | 0 <= i < |r| ensures r[i].offset % Pow2(r[i].tag.k) == 0 {
      if i > j {
        assert r[i] == w[i + 1];
      } else if i < j {
        assert r[i] == w[i];
      }
    }
  }

  /** get_first's test, and the corrected test of get_best and get_worst:
      a free block of 2^k bytes holds `size` bytes after its one-byte
      header exactly when 2^k > size. */
  predicate Fits(b: Block, size: nat)
  {
    !b.tag.occupied && Pow2(b.tag.k) > size
  }

  /** get_first: the first fitting block of the walk. */
  ghost predicate IsFirstFit(w: seq<Block>, size: nat, j: nat)
  {
    j < |w| && Fits(w[j], size) && forall i | 0 <= i < j :: !Fits(w[i], size)
  }

  /** get_best: the first of the fitting blocks of least exponent (the
      running minimum starts above every exponent and is replaced only by
      a strictly smaller one). */
  ghost predicate IsBestFit(w: seq<Block>, size: nat, j: nat)
  {
    j < |w| && Fits(w[j], size)
    && (forall i | 0 <= i < |w| && Fits(w[i], size) :: w[j].tag.k <= w[i].tag.k)
    && (forall i | 0 <= i < j && Fits(w[i], size) :: w[j].tag.k < w[i].tag.k)
  }

  /** get_worst: the first of the fitting blocks of greatest exponent; the
      running maximum starts at 0 and is replaced only by a strictly greater
      one, so a block of exponent 0 is never chosen. */
  ghost predicate IsWorstFit(w: seq<Block>, size: nat, j: nat)
  {
    j < |w| && Fits(w[j], size) && w[j].tag.k > 0
    && (forall i | 0 <= i < |w| && Fits(w[i], size) :: w[i].tag.k <= w[j].tag.k)
    && (forall i | 0 <= i < j && Fits(w[i], size) :: w[i].tag.k < w[j].tag.k)
  }

  ghost predicate IsChosen(mode: FitMode, w: seq<Block>, size: nat, j: nat)
  {
    match mode
    case FirstFit => IsFirstFit(w, size, j)
    case TheBestFit => IsBestFit(w, size, j)
    case TheWorstFit => IsWorstFit(w, size, j)
  }

  /** No block qualifies under the policy: the allocation returns null. */
  ghost predicate NoneChosen(mode: FitMode, w: seq<Block>, size: nat)
  {
    match mode
    case TheWorstFit => forall i | 0 <= i < |w| && Fits(w[i], size) :: w[i].tag.k == 0
    case _ => forall i | 0 <= i < |w| :: !Fits(w[i], size)
  }

  /** Each policy picks at most one block. */
  lemma ChosenUnique(mode: FitMode, w: seq<Block>, size: nat, i: nat, j: nat)
    requires IsChosen(mode, w, size, i) && IsChosen(mode, w, size, j)
    ensures i == j
  {
  }

  /** The exponent the split loop stops at: it halves the block while it is
      more than twice the request and bigger than 2^4. */
  function SplitTarget(k: Exponent, size: nat): (kf: Exponent)
    decreases k
  {
    if Pow2(k) > 2 * size && k > 4 then SplitTarget(k - 1, size) else k
  }

  /** The block handed out still holds the request after its header, and it
      is no more than twice the request unless it is already of the
      smallest exponent the loop splits to. */
  lemma {:induction false} SplitTargetFits(k: Exponent, size: nat)
    ensures SplitTarget(k, size) <= k
    ensures Pow2(k) > size ==> Pow2(SplitTarget(k, size)) > size
    ensures !(Pow2(SplitTarget(k, size)) > 2 * size && SplitTarget(k, size) > 4)
    ensures SplitTarget(k, size) >= 4 || SplitTarget(k, size) == k
    decreases k
  {
    if Pow2(k) > 2 * size && k > 4 {
      SplitTargetFits(k - 1, size);
    }
  }

  /** The free upper halves left behind when a block at p of exponent `hi`
      is split down to exponent `lo`, lowest first. */
  function Buddies(p: nat, lo: Exponent, hi: Exponent): (r: seq<Block>)
    ensures |r| == if lo >= hi then 0 else hi - lo
    decreases hi - lo
  {
    if lo >= hi then [] else [Block(p + Pow2(lo), Tag(false, lo))] + Buddies(p, lo + 1, hi)
  }

  /** The walk after allocating `size` bytes from its j-th block. */
  function AllocatedWalk(w: seq<Block>, j: nat, size: nat): (r: seq<Block>)
    requires j < |w|
  {
    var p := w[j].offset;
    var k := w[j].tag.k;
    var kf := SplitTarget(k, size);
    w[..j] + [Block(p, Tag(true, kf))] + Buddies(p, kf, k) + w[j + 1..]
  }

  /** One more split step, seen on the walk. */
  lemma SplitBlocksBuddies(w0: seq<Block>, j: nat, p: nat, kc: Exponent, k0: Exponent, occupied: bool)
    requires j < |w0| && 1 <= kc <= k0
    ensures var cur := w0[..j] + [Block(p, Tag(occupied, kc))] + Buddies(p, kc, k0) + w0[j + 1..];
      j < |cur| && cur[j] == Block(p, Tag(occupied, kc))
      && SplitBlocks(cur, j, occupied)
         == w0[..j] + [Block(p, Tag(occupied, kc - 1))] + Buddies(p, kc - 1, k0) + w0[j + 1..]
  {
    var cur := w0[..j] + [Block(p, Tag(occupied, kc))] + Buddies(p, kc, k0) + w0[j + 1..];
    assert cur[..j] == w0[..j];
    assert cur[j + 1..] == Buddies(p, kc, k0) + w0[j + 1..];
    assert Buddies(p, kc - 1, k0) == [Block(p + Pow2(kc - 1), Tag(false, kc - 1))] + Buddies(p, kc, k0);
  }

  /** How many blocks following a freed block at p of exponent k the merge
      loop absorbs: each must be free, of the current exponent, and the
      buddy of the growing block, i.e. the growing block must be aligned to
      twice its size. */
  function Absorbed(ws: seq<Block>, p: nat, k: nat): (c: nat)
    ensures c <= |ws|
  {
    if |ws| > 0 && !ws[0].tag.occupied && ws[0].tag.k == k && p % Pow2(k + 1) == 0
    then 1 + Absorbed(ws[1..], p, k + 1)
    else 0
  }

  /** The walk after freeing its j-th block. */
  function FreedWalk(w: seq<Block>, j: nat): (r: seq<Block>)
    requires j < |w|
  {
    var c := Absorbed(w[j + 1..], w[j].offset, w[j].tag.k);
    var k := w[j].tag.k + c;
    if k < 128 then w[..j] + [Block(w[j].offset, Tag(false, k))] + w[j + 1 + c..] else w
  }

  /** The blocks a split leaves behind are exactly what a later free of the
      allocated block absorbs: allocating from a free block and freeing the
      result restores the walk, provided the block was free, aligned and not
      followed by a free block of its own size. */
  lemma {:induction false} AllocateThenFree(w: seq<Block>, j: nat, size: nat)
    requires j < |w| && !w[j].tag.occupied && w[j].offset % Pow2(w[j].tag.k) == 0
    requires Absorbed(w[j + 1..], w[j].offset, w[j].tag.k) == 0
    ensures j < |AllocatedWalk(w, j, size)| && AllocatedWalk(w, j, size)[j].offset == w[j].offset
    ensures FreedWalk(AllocatedWalk(w, j, size), j) == w
  {
    var p := w[j].offset;
    var k := w[j].tag.k;
    var kf := SplitTarget(k, size);
    SplitTargetFits(k, size);
    var rest := w[j + 1..];
    assert AllocatedWalk(w, j, size) == w[..j] + [Block(p, Tag(true, kf))] + Buddies(p, kf, k) + rest;
    assert FreedWalk(AllocatedWalk(w, j, size), j) == w[..j] + [Block(p, Tag(false, k))] + rest by {
      BuddiesAbsorbed(p, kf, k, rest);
      FreedWalkOf(w[..j], Block(p, Tag(true, kf)), Buddies(p, kf, k), rest, k);
    }
    Around(w, j);
  }

  lemma Around(w: seq<Block>, j: nat)
    requires j < |w|
    ensures w == w[..j] + [w[j]] + w[j + 1..]
  {
  }

  /** Freeing the block after `pre` absorbs exactly the blocks of `mid`. */
  lemma FreedWalkOf(pre: seq<Block>, b: Block, mid: seq<Block>, rest: seq<Block>, k: Exponent)
    requires Absorbed(mid + rest, b.offset, b.tag.k) == |mid| && b.tag.k + |mid| == k
    ensures var w := pre + [b] + mid + rest;
      |pre| < |w| && w[|pre|] == b && FreedWalk(w, |pre|) == pre + [Block(b.offset, Tag(false, k))] + rest
  {
    var w := pre + [b] + mid + rest;
    var j := |pre|;
    assert w[j + 1..] == mid + rest;
    assert w[..j] == pre;
    assert w[j + 1 + |mid|..] == rest;
  }

  /** The merge loop absorbs all the buddies a split left behind, and then
      goes on as it would from the original block. */
  lemma {:induction false} BuddiesAbsorbed(p: nat, lo: Exponent, hi: Exponent, rest: seq<Block>)
    requires lo <= hi && p % Pow2(hi) == 0
    ensures Absorbed(Buddies(p, lo, hi) + rest, p, lo) == (hi - lo) + Absorbed(rest, p, hi)
    decreases hi - lo
  {
    if lo < hi {
      var b := Buddies(p, lo, hi);
      assert b == [Block(p + Pow2(lo), Tag(false, lo))] + Buddies(p, lo + 1, hi);
      AlignedBelow(p, lo + 1, hi);
      assert (b + rest)[1..] == Buddies(p, lo + 1, hi) + rest;
      BuddiesAbsorbed(p, lo + 1, hi, rest);
    } else {
      assert Buddies(p, lo, hi) + rest == rest;
    }
  }

  lemma AlignedBelow(p: nat, i: nat, k: nat)
    requires i <= k && p % Pow2(k) == 0
    ensures p % Pow2(i) == 0
    decreases k - i
  {
    if i < k {
      HalfAligned(p, k);
      AlignedBelow(p, i, k - 1);
    }
  }

  /** Offsets along the walk strictly increase, so a header appears on it
      at most once. */
  lemma {:induction false} WalkIncreasing(t: seq<Tag>, n: nat, o: nat)
    requires n <= |t| && o < |t|
    ensures forall i, h | 0 <= i < h < |Walk(t, n, o)| :: Walk(t, n, o)[i].offset < Walk(t, n, o)[h].offset
    decreases |t| - o
  {
    var w := Walk(t, n, o);
    match NextOffset(t, n, o)
    case None =>
    case Some(q) =>
      WalkIncreasing(t, n, q);
      WalkAbove(t, n, q);
      assert w[1..] == Walk(t, n, q);
      forall i, h | 0 <= i < h < |w| ensures w[i].offset < w[h].offset {
        assert w[h] == Walk(t, n, q)[h - 1];
        if i > 0 {
          assert w[i] == Walk(t, n, q)[i - 1];
        }
      }
  }

  /** The position of the header at offset p on a walk, if it is on it. */
  function FindOffset(w: seq<Block>, p: nat): (r: Option<nat>)
    ensures r.Some? ==> r.value < |w| && w[r.value].offset == p
    ensures r.None? ==> forall i | 0 <= i < |w| :: w[i].offset != p
  {
    if w == [] then None
    else if w[0].offset == p then Some(0)
    else match FindOffset(w[1..], p)
      case None => None
      case Some(i) => Some(i + 1)
  }

  lemma ExponentBelow(k: nat, e: nat)
    requires Pow2(k) < Pow2(e)
    ensures k < e
  {
    if k >= e {
      Pow2Monotonic(e, k);
    }
  }
}
