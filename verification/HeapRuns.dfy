/** What `alloc` and `free` keep, and what nested runs of them undo. */
module HeapRuns {
  import opened Machine
  import opened OrderedArrays
  import opened HeapModel

  // ---------------------------------------------------------------- live blocks

  function Live(bs: seq<Block>): set<Block> {
    set b | b in bs && !b.hole
  }

  lemma SpliceLive(bs: seq<Block>, lo: nat, hi: nat, k: nat, n: nat, pieces: seq<Block>)
    requires Tiles(bs, lo, hi) && k + n <= |bs|
    ensures Live(Splice(bs, k, n, pieces)) == Live(bs) - Live(bs[k..k + n]) + Live(pieces)
  {
    hide Tiles;
    var mid, rest := bs[k..k + n], bs[..k] + bs[k + n..];
    assert bs == bs[..k] + mid + bs[k + n..];
    forall b | b in rest
      ensures b !in mid
    {
      var i :| 0 <= i < |bs| && !(k <= i < k + n) && bs[i] == b;
      if b in mid {
        var j :| 0 <= j < n && mid[j] == b;
        PositionUnique(bs, lo, hi, i, k + j);
      }
    }
    assert forall b :: b in bs <==> b in rest || b in mid;
    assert forall b :: b in Splice(bs, k, n, pieces) <==> b in rest || b in pieces;
  }

  /** Of the pieces of a hole the carved block alone is live. */
  lemma PiecesLive(b: Block, total: nat, align: bool)
    requires Fits(b, total, align)
    ensures Live(Pieces(b, total, align)) == {Carved(b, total, align)}
  {
    hide Gap;
    assert Pieces(b, total, align)[|Front(b, total, align)|] == Carved(b, total, align);
  }

  lemma PlaceLive(h: Heap, i: nat, total: nat, align: bool)
    requires Sound(h) && i < |h.holes| && TAGS <= total && Fits(h.holes[i], total, align)
    ensures h.holes[i] in h.blocks
    ensures Live(Place(h, i, total, align).blocks) == Live(h.blocks) + {Carved(h.holes[i], total, align)}
    ensures forall b :: b in Live(h.blocks) ==> b.End() <= h.holes[i].addr || h.holes[i].End() <= b.addr
  {
    hide Tiles, BagOfHoles, Sorted, Coalesced, Splice, Gap, Pieces, Carved, Front, Back, InsertAll, Removed;
    HolesAreBlocks(h);
    var b := h.holes[i];
    assert b in h.holes;
    var k := Position(h.blocks, b);
    SpliceLive(h.blocks, h.start, h.end, k, 1, Pieces(b, total, align));
    SliceOfOne(h.blocks, k);
    HolesNotLive([b]);
    PiecesLive(b, total, align);
    forall c | c in Live(h.blocks)
      ensures c.End() <= b.addr || b.End() <= c.addr
    {
      var j := Position(h.blocks, c);
      if j < k { TilesOrdered(h.blocks, h.start, h.end, j, k); } else { TilesOrdered(h.blocks, h.start, h.end, k, j); }
    }
  }

  lemma GrownLive(h: Heap, e: nat)
    requires Sound(h) && h.end <= e
    requires EndsInHole(h.blocks) ==> h.blocks[|h.blocks| - 1] in h.holes
    ensures Live(Grown(h, e).blocks) == Live(h.blocks)
  {
    hide Tiles, BagOfHoles, Sorted, Coalesced, Inserted, Removed;
    if EndsInHole(h.blocks) {
      assert h.blocks == h.blocks[..|h.blocks| - 1] + [h.blocks[|h.blocks| - 1]];
    }
  }

  lemma HolesNotLive(bs: seq<Block>)
    requires forall b :: b in bs ==> b.hole
    ensures Live(bs) == {}
  {
  }

  /** Of the blocks that merge the freed one alone was live. */
  lemma MergedLive(bs: seq<Block>, k: nat)
    requires k < |bs| && !bs[k].hole
    ensures var l, r := LeftMerge(bs, k), RightMerge(bs, k); Live(bs[k - l..k + 1 + r]) == {bs[k]}
  {
    var l, r := LeftMerge(bs, k), RightMerge(bs, k);
    MergedSlice(bs, k, l, r);
  }

  lemma FreedLive(h: Heap, k: nat)
    requires Sound(h) && k < |h.blocks| && !h.blocks[k].hole
    ensures h.start <= Merged(h.blocks, k).addr
    ensures Live(Freed(h, k).blocks) == Live(h.blocks) - {h.blocks[k]}
  {
    hide Tiles, BagOfHoles, Sorted, Coalesced, Splice, HolesLeft, InsertAll, TrimmedEnd, Live, LeftMerge, RightMerge;
    MergedTiles(h, k);
    var bs, l, r := h.blocks, LeftMerge(h.blocks, k), RightMerge(h.blocks, k);
    var rest := Trimmed(h, Merged(bs, k)).0;
    SpliceLive(bs, h.start, h.end, k - l, l + 1 + r, rest);
    HolesNotLive(rest);
    MergedLive(bs, k);
  }

  /** `alloc` adds one live block, new, large enough and aligned when asked, and changes no other. */
  lemma AllocSound(h: Heap, size: nat, align: bool)
    requires Sound(h)
    ensures match Alloc(h, size, align)
      case None => true
      case Some((r, p)) =>
        && Sound(r) && r.start == h.start && r.max == h.max && h.end <= r.end
        && (align ==> p % PAGE == 0)
        && exists b :: b in r.blocks && b.Payload() == p && size + TAGS <= b.size < size + 2 * TAGS && !b.hole
             && b !in h.blocks && Live(r.blocks) == Live(h.blocks) + {b}
    decreases h.max - h.end
  {
    hide Tiles, BagOfHoles, Sorted, Coalesced, Place, Grown, Gap;
    var total := size + TAGS;
    var i := FirstFit(h.holes, total, align);
    if i < |h.holes| {
      PlaceSound(h, i, total, align);
      PlaceLive(h, i, total, align);
      PlaceFrame(h, i, total, align);
      var r, b := Place(h, i, total, align), Carved(h.holes[i], total, align);
      assert b in Live(r.blocks);
      assert b !in h.blocks by {
        TilesBounds(h.blocks, h.start, h.end);
        assert b in h.blocks ==> b in Live(h.blocks);
      }
    } else if GrownEnd(h, total).Some? {
      GrownSound(h, total);
      var e := GrownEnd(h, total).value;
      GrownLive(h, e);
      GrownFrame(h, e);
      var g := Grown(h, e);
      AllocSound(g, size, align);
      if Alloc(g, size, align).Some? {
        var (r, p) := Alloc(g, size, align).value;
        var b :| b in r.blocks && b.Payload() == p && size + TAGS <= b.size < size + 2 * TAGS && !b.hole
             && b !in g.blocks && Live(r.blocks) == Live(g.blocks) + {b};
        assert b in h.blocks ==> b in Live(g.blocks);
      }
    }
  }

  lemma PlaceFrame(h: Heap, i: nat, total: nat, align: bool)
    requires i < |h.holes| && h.holes[i] in h.blocks && Fits(h.holes[i], total, align)
    ensures var r := Place(h, i, total, align); r.start == h.start && r.end == h.end && r.max == h.max
  {
  }

  lemma GrownFrame(h: Heap, e: nat)
    requires h.end <= e
    requires EndsInHole(h.blocks) ==> h.blocks[|h.blocks| - 1] in h.holes
    ensures var g := Grown(h, e); g.start == h.start && g.end == e && g.max == h.max
  {
  }

  // ---------------------------------------------------------------- pointers

  /** Position of the live block with payload `p`, `|bs|` when there is none. */
  function LiveAt(bs: seq<Block>, p: nat): (k: nat)
    ensures k <= |bs|
    ensures k < |bs| ==> !bs[k].hole && bs[k].Payload() == p
    ensures k == |bs| ==> forall b :: b in bs && !b.hole ==> b.Payload() != p
  {
    if bs == [] || (!bs[0].hole && bs[0].Payload() == p) then 0 else 1 + LiveAt(bs[1..], p)
  }

  lemma FreedFrame(h: Heap, k: nat)
    requires k < |h.blocks| && h.start <= Merged(h.blocks, k).addr
    ensures Freed(h, k).start == h.start && Freed(h, k).max == h.max
  {
  }

  /** `create_heap`: one hole. */
  function Created(start: nat, end: nat, max: nat): Heap
    requires start <= end
  {
    var hole := Block(start, end - start, true);
    Heap(start, end, max, [hole], [hole])
  }

  lemma CreatedSound(start: nat, end: nat, max: nat)
    requires start % PAGE == 0 && end % PAGE == 0 && start + HEAP_MIN <= end <= max < U32
    ensures Sound(Created(start, end, max))
  {
    TilesOne(Block(start, end - start, true));
    BagOfOne(Block(start, end - start, true));
  }

  /** Nothing is live in a fresh heap, and its first unaligned request, grown for or not, is served
      from its start. */
  lemma CreatedFresh(start: nat, end: nat, max: nat, size: nat)
    requires start % PAGE == 0 && end % PAGE == 0 && start + HEAP_MIN <= end <= max < U32
    ensures Live(Created(start, end, max).blocks) == {} && Sound(Created(start, end, max))
    ensures Alloc(Created(start, end, max), size, false).Some? ==>
      Alloc(Created(start, end, max), size, false).value.1 == start + 12
  {
    CreatedSound(start, end, max);
    if Alloc(Created(start, end, max), size, false).Some? {
      AllocAtTail(Created(start, end, max), size);
    }
  }

  /** In a sound heap live payloads overlap neither each other nor any tag. */
  lemma LiveDisjoint(h: Heap, b: Block, c: Block)
    requires Sound(h) && b in h.blocks && c in h.blocks && b != c
    ensures b.End() <= c.addr || c.End() <= b.addr
    ensures h.start <= b.addr && b.Payload() + FOOTER <= b.End() <= h.end <= h.max
  {
    hide BagOfHoles, Sorted, Coalesced;
    var i, j := Position(h.blocks, b), Position(h.blocks, c);
    TilesBounds(h.blocks, h.start, h.end);
    if i < j { TilesOrdered(h.blocks, h.start, h.end, i, j); } else { TilesOrdered(h.blocks, h.start, h.end, j, i); }
  }

  // ---------------------------------------------------------------- growth

  /** An unaligned `alloc` grows at most once, and panics exactly when no hole
      suffices and the grown heap would pass `max`. */
  lemma GrowsAtMostOnce(h: Heap, size: nat)
    requires Sound(h)
    ensures var total := size + TAGS;
      && (Alloc(h, size, false).None? <==>
            && (forall b :: b in h.blocks && b.hole ==> b.size < total)
            && h.max < h.start + AlignUp(h.end - h.start + total))
      && (FirstFit(h.holes, total, false) == |h.holes| && GrownEnd(h, total).Some? ==>
            && (EndsInHole(h.blocks) ==> h.blocks[|h.blocks| - 1] in h.holes)
            && var g := Grown(h, GrownEnd(h, total).value); FirstFit(g.holes, total, false) < |g.holes|)
  {
    hide Tiles, BagOfHoles, Sorted, Coalesced, Place, Grown;
    var total := size + TAGS;
    BestFit(h, total);
    if FirstFit(h.holes, total, false) == |h.holes| && GrownEnd(h, total).Some? {
      GrownSound(h, total);
      var g := Grown(h, GrownEnd(h, total).value);
      BestFit(g, total);
      assert g.blocks[|g.blocks| - 1] in g.blocks;
    }
  }

  /** A request, aligned or not, is served without growing exactly when some hole has a place for it. */
  lemma ServedInPlace(h: Heap, size: nat, align: bool)
    requires Sound(h)
    ensures var total := size + TAGS;
      Alloc(h, size, align).Some? && Growths(h, size, align) == 0 <==>
        exists b: Block, at: nat :: b in h.blocks && b.hole && CanHold(b, total, align, at)
    ensures Growths(h, size, align) == 0 && Alloc(h, size, align).Some? ==> Alloc(h, size, align).value.0.end == h.end
  {
    hide Tiles, BagOfHoles, Sorted, Coalesced, Place, Grown, Fits, Carved, CanHold;
    var total := size + TAGS;
    var i := FirstFit(h.holes, total, align);
    HolesAreBlocks(h);
    if i < |h.holes| {
      assert h.holes[i] in h.holes;
      PlaceFrame(h, i, total, align);
      FitsMeans(h.holes[i], total, align);
    } else {
      forall b: Block, at: nat | b in h.blocks && b.hole
        ensures !CanHold(b, total, align, at)
      {
        assert b in h.holes;
        var j :| 0 <= j < |h.holes| && h.holes[j] == b;
        FitsMeans(b, total, align);
      }
    }
  }

  /** Where a request served without growing goes: the lowest place in a smallest of the holes that
      have one. */
  lemma ServedBest(h: Heap, size: nat, align: bool)
    requires Sound(h) && Alloc(h, size, align).Some? && Growths(h, size, align) == 0
    ensures var total, p := size + TAGS, Alloc(h, size, align).value.1;
      exists x :: x in h.blocks && x.hole && 12 <= p && CanHold(x, total, align, p - 12)
        && (forall at: nat :: CanHold(x, total, align, at) ==> p - 12 <= at)
        && forall b: Block, at: nat :: b in h.blocks && b.hole && CanHold(b, total, align, at) ==> x.size <= b.size
  {
    hide Tiles, BagOfHoles, Coalesced, Place, Grown, Fits, Carved, CanHold;
    var total := size + TAGS;
    var i := FirstFit(h.holes, total, align);
    HolesAreBlocks(h);
    var x := h.holes[i];
    assert x in h.holes;
    FitsMeans(x, total, align);
    forall b: Block, at: nat | b in h.blocks && b.hole && CanHold(b, total, align, at)
      ensures x.size <= b.size
    {
      assert b in h.holes;
      var j :| 0 <= j < |h.holes| && h.holes[j] == b;
      FitsMeans(b, total, align);
      assert i <= j;
    }
  }

  /** How often `alloc` grows the heap. */
  ghost function Growths(h: Heap, size: nat, align: bool): nat
    requires Sound(h)
    decreases h.max - h.end
  {
    if FirstFit(h.holes, size + TAGS, align) < |h.holes| || GrownEnd(h, size + TAGS).None? then 0
    else
      GrownSound(h, size + TAGS);
      1 + Growths(Grown(h, GrownEnd(h, size + TAGS).value), size, align)
  }

  /** A hole of one page more than the whole pages of the request, with its end on a page, fits. */
  lemma RoomyFits(b: Block, total: nat, align: bool)
    requires AlignUp(total) + PAGE <= b.size && b.End() % PAGE == 0
    ensures Fits(b, total, align)
  {
    var payload := b.addr + Gap(b.addr, align) + HEADER;
    assert align ==> payload % PAGE == 0 && payload <= b.End() - AlignUp(total);
  }

  lemma FinalHoleFits(h: Heap, total: nat, align: bool)
    requires Sound(h) && EndsInHole(h.blocks) && AlignUp(total) + PAGE <= h.blocks[|h.blocks| - 1].size
    ensures FirstFit(h.holes, total, align) < |h.holes|
  {
    hide Tiles, BagOfHoles, Sorted, Coalesced, AlignUp;
    HolesAreBlocks(h);
    TilesBounds(h.blocks, h.start, h.end);
    var b := h.blocks[|h.blocks| - 1];
    RoomyFits(b, total, align);
    assert b in h.blocks;
    var j :| 0 <= j < |h.holes| && h.holes[j] == b;
  }

  lemma AlignUpShift(x: nat, y: nat)
    requires x % PAGE == 0
    ensures AlignUp(x + y) == x + AlignUp(y)
  {
    assert (x + y) % PAGE == y % PAGE;
  }

  /** The heap grows by the whole pages of the request, at least one. */
  lemma GrownBy(h: Heap, total: nat)
    requires h.start % PAGE == 0 && h.end % PAGE == 0 && h.start <= h.end && 0 < total && GrownEnd(h, total).Some?
    ensures GrownEnd(h, total).value == h.end + AlignUp(total) && PAGE <= AlignUp(total)
  {
    hide AlignUp;
    var x := h.end - h.start;
    assert x % PAGE == 0;
    AlignUpShift(x, total);
    assert PAGE <= AlignUp(total) by { assert AlignUp(total) % PAGE == 0 && 0 < AlignUp(total); }
  }

  lemma GrownLast(h: Heap, e: nat)
    requires h.end <= e && EndsInHole(h.blocks) && h.blocks[|h.blocks| - 1] in h.holes
    ensures EndsInHole(Grown(h, e).blocks)
    ensures Grown(h, e).blocks[|Grown(h, e).blocks| - 1].size == h.blocks[|h.blocks| - 1].size + (e - h.end)
  {
    hide Inserted, Removed;
  }

  /** From a final hole of the whole pages of the request one growth is enough. */
  lemma OnceMore(h: Heap, size: nat, align: bool)
    requires Sound(h) && EndsInHole(h.blocks) && AlignUp(size + TAGS) <= h.blocks[|h.blocks| - 1].size
    ensures Growths(h, size, align) <= 1
  {
    hide Tiles, BagOfHoles, Sorted, Coalesced, Grown, AlignUp, GrownEnd;
    var total := size + TAGS;
    if FirstFit(h.holes, total, align) == |h.holes| && GrownEnd(h, total).Some? {
      GrownSound(h, total);
      GrownBy(h, total);
      var e := GrownEnd(h, total).value;
      GrownLast(h, e);
      FinalHoleFits(Grown(h, e), total, align);
    }
  }

  /** No `alloc`, aligned or not, grows more than twice. */
  lemma GrowsAtMostTwice(h: Heap, size: nat, align: bool)
    requires Sound(h)
    ensures Growths(h, size, align) <= 2
  {
    hide Tiles, BagOfHoles, Sorted, Coalesced, Grown, AlignUp, GrownEnd;
    var total := size + TAGS;
    if FirstFit(h.holes, total, align) == |h.holes| && GrownEnd(h, total).Some? {
      GrownSound(h, total);
      GrownBy(h, total);
      var e := GrownEnd(h, total).value;
      GrownTiles(h, e);
      OnceMore(Grown(h, e), size, align);
    }
  }

  // ---------------------------------------------------------------- nested runs

  /** The tiling up to a final hole, which growing and trimming move. */
  function Core(bs: seq<Block>): seq<Block> {
    if EndsInHole(bs) then bs[..|bs| - 1] else bs
  }

  /** A tiling is its core and at most a final hole. */
  lemma CoreOf(bs: seq<Block>)
    ensures bs == Core(bs) || (bs[|bs| - 1].hole && bs == Core(bs) + [bs[|bs| - 1]])
    ensures Coalesced(bs) ==> !EndsInHole(Core(bs))
  {
    if EndsInHole(bs) {
      assert bs == bs[..|bs| - 1] + [bs[|bs| - 1]];
      if |bs| > 1 && Coalesced(bs) { HoleAlone(bs, |bs| - 1); }
    }
  }

  /** What freeing block `k` does to the core of a tiling. */
  function CoreFreed(core: seq<Block>, k: nat): seq<Block>
    requires k < |core|
  {
    var l, r := LeftMerge(core, k), RightMerge(core, k);
    if k + 1 == |core| then core[..k - l] else Splice(core, k - l, l + 1 + r, [Merged(core, k)])
  }

  lemma CoreFreedLast(bs: seq<Block>, k: nat, rest: seq<Block>)
    requires k < |bs| && !bs[k].hole && k + RightMerge(bs, k) + 1 == |bs| && Coalesced(bs)
    requires |rest| <= 1 && forall b :: b in rest ==> b.hole
    ensures k < |Core(bs)| && Core(bs[..k - LeftMerge(bs, k)] + rest) == CoreFreed(Core(bs), k)
  {
    hide Coalesced, Merged;
    var l, c := LeftMerge(bs, k), bs[..k + 1];
    assert Core(bs) == c;
    assert LeftMerge(c, k) == l && c[..k - l] == bs[..k - l];
    if l == 1 && 1 < k { HoleAlone(bs, k - 1); }
    CoreOfFinal(bs[..k - l], rest);
  }

  /** The left neighbour of a hole is live. */
  lemma HoleAlone(bs: seq<Block>, i: nat)
    requires Coalesced(bs) && 0 < i < |bs| && bs[i].hole
    ensures !bs[i - 1].hole
  {
  }

  lemma CoreOfFinal(front: seq<Block>, rest: seq<Block>)
    requires !EndsInHole(front) && |rest| <= 1 && forall b :: b in rest ==> b.hole
    ensures Core(front + rest) == front
  {
    if rest == [] {
      assert front + rest == front;
    } else {
      assert rest[0] in rest;
      assert (front + rest)[..|front|] == front;
    }
  }

  lemma HoleThenLive(bs: seq<Block>, i: nat)
    requires Coalesced(bs) && 0 < i < |bs| && bs[i - 1].hole
    ensures !bs[i].hole
  {
  }

  /** Merging looks no further than the right neighbour. */
  lemma MergedPrefix(bs: seq<Block>, n: nat, k: nat)
    requires k + 1 < n <= |bs|
    ensures LeftMerge(bs[..n], k) == LeftMerge(bs, k) && RightMerge(bs[..n], k) == RightMerge(bs, k)
    ensures Merged(bs[..n], k) == Merged(bs, k)
  {
  }

  lemma CoreFreedInner(bs: seq<Block>, k: nat)
    requires k < |bs| && !bs[k].hole && k + RightMerge(bs, k) + 1 < |bs| && Coalesced(bs)
    ensures var l, r := LeftMerge(bs, k), RightMerge(bs, k);
      k < |Core(bs)| && Core(Splice(bs, k - l, l + 1 + r, [Merged(bs, k)])) == CoreFreed(Core(bs), k)
  {
    hide Merged, Coalesced, Splice;
    var l, r, n := LeftMerge(bs, k), RightMerge(bs, k), |Core(bs)|;
    assert k + 1 + r < n by {
      if r == 1 { HoleThenLive(bs, k + 2); }
    }
    MergedPrefix(bs, n, k);
    assert Core(bs) == bs[..n];
    SplicePrefix(bs, n, k - l, l + 1 + r, Merged(bs, k));
  }

  /** Splicing one block in well before the end commutes with dropping a final hole. */
  lemma SplicePrefix(bs: seq<Block>, n: nat, i: nat, m: nat, b: Block)
    requires i + m < n == |Core(bs)|
    ensures Core(Splice(bs, i, m, [b])) == Splice(bs[..n], i, m, [b])
  {
    var f := Splice(bs, i, m, [b]);
    assert f[|f| - 1] == bs[|bs| - 1];
    if n < |bs| {
      assert f[..|f| - 1] == Splice(bs[..n], i, m, [b]);
    } else {
      assert bs[..n] == bs;
    }
  }

  /** Freeing acts on the core alone: the final hole does not matter. */
  lemma FreedCore(h: Heap, k: nat)
    requires Sound(h) && k < |h.blocks| && !h.blocks[k].hole
    ensures h.start <= Merged(h.blocks, k).addr
    ensures k < |Core(h.blocks)| && Core(Freed(h, k).blocks) == CoreFreed(Core(h.blocks), k)
  {
    hide Tiles, BagOfHoles, Sorted, TrimmedEnd, HolesLeft, InsertAll, Core, CoreFreed, Coalesced;
    MergedTiles(h, k);
    var bs, l, r := h.blocks, LeftMerge(h.blocks, k), RightMerge(h.blocks, k);
    if k + r + 1 == |bs| {
      TilesBounds(bs, h.start, h.end);
      var rest := Trimmed(h, Merged(bs, k)).0;
      CoreFreedLast(bs, k, rest);
      assert Freed(h, k).blocks == bs[..k - l] + rest;
    } else {
      CoreFreedInner(bs, k);
    }
  }

  lemma GrownCore(h: Heap, e: nat)
    requires Sound(h) && h.end <= e
    requires EndsInHole(h.blocks) ==> h.blocks[|h.blocks| - 1] in h.holes
    ensures Core(Grown(h, e).blocks) == Core(h.blocks)
  {
    hide Tiles, BagOfHoles, Sorted, Inserted, Removed;
  }

  /** The carved block merges back with exactly the two remainders of the hole. */
  lemma PlacedMerge(bs: seq<Block>, j: nat, b: Block, f: seq<Block>, c: Block, t: seq<Block>)
    requires j < |bs| && bs[j] == b && b.hole && Coalesced(bs) && !c.hole
    requires |f| <= 1 && |t| <= 1 && b.addr <= c.addr && c.End() <= b.End()
    requires if f == [] then c.addr == b.addr else f[0] == Block(b.addr, c.addr - b.addr, true)
    requires if t == [] then c.End() == b.End() else t[0] == Block(c.End(), b.End() - c.End(), true)
    ensures var r := Splice(bs, j, 1, f + [c] + t);
      && r[j + |f|] == c
      && LeftMerge(r, j + |f|) == |f| && RightMerge(r, j + |f|) == |t|
      && Merged(r, j + |f|) == b
      && r[..j] == bs[..j] && r[j + |f| + 1 + |t|..] == bs[j + 1..]
  {
  }

  lemma RestoredCore(bs: seq<Block>, j: nat, rest: seq<Block>)
    requires j < |bs| && bs[j].hole && Coalesced(bs)
    requires if j + 1 == |bs| then |rest| <= 1 && forall b :: b in rest ==> b.hole else rest == [bs[j]]
    ensures Core(bs[..j] + rest + bs[j + 1..]) == Core(bs)
  {
    if j + 1 == |bs| {
      assert bs[..j] + rest + bs[j + 1..] == bs[..j] + rest;
    } else {
      assert bs == bs[..j] + rest + bs[j + 1..];
    }
  }

  /** In the tiling that `Place` leaves, the carved block is found and merges back to the hole. */
  lemma PlacedBlocks(h: Heap, i: nat, total: nat, align: bool)
    requires Sound(h) && i < |h.holes| && TAGS <= total && Fits(h.holes[i], total, align)
    requires h.holes[i] in h.blocks && h.holes[i].hole && Sound(Place(h, i, total, align))
    ensures var bs, r, b := h.blocks, Place(h, i, total, align).blocks, h.holes[i];
      var j, k := Position(bs, b), LiveAt(r, Carved(b, total, align).Payload());
      && k < |r| && !r[k].hole && Merged(r, k) == b
      && r[..k - LeftMerge(r, k)] == bs[..j] && r[k + 1 + RightMerge(r, k)..] == bs[j + 1..]
  {
    hide Tiles, BagOfHoles, Sorted, InsertAll, Gap, LiveAt, Coalesced, Merged, LeftMerge, RightMerge, Removed, Splice;
    var r, b, c := Place(h, i, total, align), h.holes[i], Carved(h.holes[i], total, align);
    var bs, j := h.blocks, Position(h.blocks, h.holes[i]);
    var f, t := Front(b, total, align), Back(b, total, align);
    PlacedMerge(bs, j, b, f, c, t);
    var k := LiveAt(r.blocks, c.Payload());
    assert r.blocks[j + |f|] in r.blocks;
    PositionUnique(r.blocks, r.start, r.end, j + |f|, k);
  }

  /** Freeing the block that was just carved out of a hole gives the hole back. */
  lemma PlaceFreed(h: Heap, i: nat, total: nat, align: bool)
    requires Sound(h) && i < |h.holes| && TAGS <= total && Fits(h.holes[i], total, align)
    ensures h.holes[i] in h.blocks
    ensures var r, c := Place(h, i, total, align), Carved(h.holes[i], total, align);
      var k := LiveAt(r.blocks, c.Payload());
      && Sound(r) && k < |r.blocks|
      && h.start <= Merged(r.blocks, k).addr && Core(Freed(r, k).blocks) == Core(h.blocks)
  {
    hide Tiles, BagOfHoles, Sorted, TrimmedEnd, HolesLeft, InsertAll, Gap, Core, LiveAt, Coalesced, Place;
    hide Merged, Carved;
    PlaceSound(h, i, total, align);
    HolesAreBlocks(h);
    assert h.holes[i] in h.holes;
    PlacedBlocks(h, i, total, align);
    PlaceFrame(h, i, total, align);
    var r, b := Place(h, i, total, align), h.holes[i];
    var bs, j := h.blocks, Position(h.blocks, b);
    var k := LiveAt(r.blocks, Carved(b, total, align).Payload());
    FreedSound(r, k);
    var rest := Trimmed(r, b).0;
    assert Freed(r, k).blocks == bs[..j] + rest + bs[j + 1..];
    TilesBounds(bs, h.start, h.end);
    if j + 1 < |bs| {
      TilesOrdered(bs, h.start, h.end, j, |bs| - 1);
      assert bs[|bs| - 1] in bs;
    }
    RestoredCore(bs, j, rest);
  }

  lemma AllocFreed(h: Heap, size: nat, align: bool)
    requires Sound(h) && Alloc(h, size, align).Some?
    ensures var (r, p) := Alloc(h, size, align).value;
      var k := LiveAt(r.blocks, p);
      && Sound(r) && k < |r.blocks| && h.start <= p
      && r.start <= Merged(r.blocks, k).addr && Core(Freed(r, k).blocks) == Core(h.blocks)
    decreases h.max - h.end
  {
    hide Tiles, BagOfHoles, Sorted, Coalesced, Place, Grown, Gap, LiveAt, Core, Freed, Merged;
    var total := size + TAGS;
    var i := FirstFit(h.holes, total, align);
    if i < |h.holes| {
      PlaceFreed(h, i, total, align);
      PlaceFrame(h, i, total, align);
      TilesBounds(h.blocks, h.start, h.end);
    } else {
      GrownSound(h, total);
      var e := GrownEnd(h, total).value;
      GrownCore(h, e);
      GrownFrame(h, e);
      AllocFreed(Grown(h, e), size, align);
    }
  }

  /** Freeing a pointer in two heaps with one core leaves heaps with one core. */
  lemma FreeSameCore(h: Heap, g: Heap, p: nat)
    requires Sound(h) && Sound(g) && Core(h.blocks) == Core(g.blocks)
    requires LiveAt(h.blocks, p) < |h.blocks|
    ensures var k := LiveAt(h.blocks, p);
      && k == LiveAt(g.blocks, p) < |g.blocks|
      && h.start <= Merged(h.blocks, k).addr && g.start <= Merged(g.blocks, k).addr
      && Core(Freed(h, k).blocks) == Core(Freed(g, k).blocks)
  {
    hide Tiles, BagOfHoles, Sorted, Coalesced, Freed, Merged, CoreFreed;
    LiveAtCore(h.blocks, p);
    LiveAtCore(g.blocks, p);
    var k := LiveAt(h.blocks, p);
    FreedCore(h, k);
    FreedCore(g, k);
  }

  lemma {:induction false} LiveAtCore(bs: seq<Block>, p: nat)
    ensures LiveAt(bs, p) < |bs| <==> LiveAt(Core(bs), p) < |Core(bs)|
    ensures LiveAt(bs, p) < |bs| ==> LiveAt(Core(bs), p) == LiveAt(bs, p)
  {
    if bs != [] && LiveAt(bs, p) != 0 {
      LiveAtCore(bs[1..], p);
      assert Core(bs[1..]) == if |bs| == 1 then [] else Core(bs)[1..];
    }
  }

  /** A nest of requests, each released after everything requested inside it. */
  datatype Nest = Done | Bracket(size: nat, align: bool, body: Nest, rest: Nest)

  datatype Outcome = Finished(heap: Heap) | HeapFull | BadPointer

  ghost function RunNest(h: Heap, n: Nest): (o: Outcome)
    requires Sound(h)
    ensures o.Finished? ==> Sound(o.heap)
    decreases n
  {
    match n
    case Done => Finished(h)
    case Bracket(size, align, body, rest) =>
      match Alloc(h, size, align)
      case None => HeapFull
      case Some((r, p)) =>
        AllocSound(h, size, align);
        var inner := RunNest(r, body);
        if !inner.Finished? then inner
        else
          var k := LiveAt(inner.heap.blocks, p);
          if k == |inner.heap.blocks| then BadPointer
          else
            FreedSound(inner.heap, k);
            RunNest(Freed(inner.heap, k), rest)
  }

  /** A nested run of any depth frees only live pointers and gives back the tiling it
      started from, up to the final hole. */
  lemma {:induction false} NestRestores(h: Heap, n: Nest)
    requires Sound(h)
    ensures !RunNest(h, n).BadPointer?
    ensures RunNest(h, n).Finished? ==> Sound(RunNest(h, n).heap) && Core(RunNest(h, n).heap.blocks) == Core(h.blocks)
    decreases n
  {
    hide Tiles, BagOfHoles, Sorted, Coalesced, Freed, Merged, Core, LiveAt, Alloc;
    match n
    case Done =>
    case Bracket(size, align, body, rest) =>
      if Alloc(h, size, align).Some? {
        var (r, p) := Alloc(h, size, align).value;
        AllocFreed(h, size, align);
        NestRestores(r, body);
        var inner := RunNest(r, body);
        if inner.Finished? {
          FreeSameCore(r, inner.heap, p);
          var k := LiveAt(inner.heap.blocks, p);
          FreedSound(inner.heap, k);
          NestRestores(Freed(inner.heap, k), rest);
        }
      }
  }

  // ---------------------------------------------------------------- the boot check

  function CoreEnd(h: Heap): nat {
    var c := Core(h.blocks);
    if c == [] then h.start else c[|c| - 1].End()
  }

  /** Block `k` is the last one, or a final hole alone follows it. */
  predicate AtEnd(bs: seq<Block>, k: nat) {
    k + 1 == |bs| || (k + 2 == |bs| && bs[k + 1].hole)
  }

  /** Freeing the block at the end of the heap gives back all the pages it can: no heap with the
      same blocks in front of its final hole may end lower. Freeing any other leaves the end alone. */
  lemma FreedEnd(h: Heap, k: nat)
    requires Sound(h) && k < |h.blocks| && !h.blocks[k].hole
    ensures h.start <= Merged(h.blocks, k).addr
    ensures var f := Freed(h, k);
      && (AtEnd(h.blocks, k) ==> MayEnd(h.start, CoreEnd(f), f.end))
      && (AtEnd(h.blocks, k) ==> forall e: nat :: MayEnd(h.start, CoreEnd(f), e) ==> f.end <= e)
      && (!AtEnd(h.blocks, k) ==> f.end == h.end)
  {
    hide Tiles, BagOfHoles, Sorted, Coalesced, TrimmedEnd, HolesLeft, InsertAll, Merged, MayEnd, CoreFreed, Core;
    MergedTiles(h, k);
    FreedCore(h, k);
    var bs, m := h.blocks, Merged(h.blocks, k);
    TilesBounds(bs, h.start, h.end);
    if AtEnd(bs, k) {
      FreedCoreEnd(h, k);
      forall e: nat
        ensures MayEnd(h.start, m.addr, TrimmedEnd(h.start, m.addr))
        ensures MayEnd(h.start, m.addr, e) ==> TrimmedEnd(h.start, m.addr) <= e
      {
        TrimmedLeast(h.start, m.addr, e);
      }
    }
  }

  lemma FreedCoreEnd(h: Heap, k: nat)
    requires Sound(h) && k < |h.blocks| && !h.blocks[k].hole && AtEnd(h.blocks, k)
    requires h.start <= Merged(h.blocks, k).addr
    ensures CoreEnd(Freed(h, k)) == Merged(h.blocks, k).addr
  {
    hide BagOfHoles, Sorted, Coalesced, Freed, TrimmedEnd;
    FreedCore(h, k);
    FreedFrame(h, k);
    var bs, l := h.blocks, LeftMerge(h.blocks, k);
    assert Core(bs) == bs[..k + 1];
    assert LeftMerge(Core(bs), k) == l;
    assert CoreFreed(Core(bs), k) == bs[..k - l];
    if 0 < k - l { TilesOrdered(bs, h.start, h.end, k - l - 1, k - l); }
  }

  lemma FinalHole(h: Heap, b: Block)
    requires Sound(h) && b in h.blocks && b.hole && b !in Core(h.blocks)
    ensures b.addr == CoreEnd(h)
  {
    hide BagOfHoles, Sorted, Coalesced;
    var n := |h.blocks|;
    assert h.blocks == Core(h.blocks) + h.blocks[|Core(h.blocks)|..];
    if n > 1 { TilesOrdered(h.blocks, h.start, h.end, n - 2, n - 1); }
  }

  /** When no inner hole suffices, a block goes right behind the core, grown or not. */
  lemma AllocAtTail(h: Heap, size: nat)
    requires Sound(h) && Alloc(h, size, false).Some?
    requires forall b :: b in Core(h.blocks) && b.hole ==> b.size < size + TAGS
    ensures Alloc(h, size, false).value.1 == CoreEnd(h) + HEADER
    decreases h.max - h.end
  {
    hide Tiles, BagOfHoles, Sorted, Coalesced, Place, Grown, Core;
    var total := size + TAGS;
    var i := FirstFit(h.holes, total, false);
    HolesAreBlocks(h);
    if i < |h.holes| {
      assert h.holes[i] in h.holes;
      FinalHole(h, h.holes[i]);
    } else {
      GrownSound(h, total);
      var e := GrownEnd(h, total).value;
      GrownCore(h, e);
      GrownFrame(h, e);
      AllocAtTail(Grown(h, e), size);
    }
  }

  /** A request that a hole of the heap fits is served from the first hit. */
  lemma AllocFirst(h: Heap, size: nat)
    requires Sound(h) && FirstFit(h.holes, size + TAGS, false) < |h.holes|
    ensures var i := FirstFit(h.holes, size + TAGS, false);
      && Alloc(h, size, false).Some? && Alloc(h, size, false).value.1 == h.holes[i].Payload()
      && h.holes[i] in h.blocks && h.holes[i].hole
  {
    hide Tiles, BagOfHoles, Sorted, Coalesced, Place, Grown;
    HolesAreBlocks(h);
    assert h.holes[FirstFit(h.holes, size + TAGS, false)] in h.holes;
  }

  /** The hole inserted last is the first hit of exactly the requests it is a best fit of, because
      it goes in front of its equals. */
  lemma FirstHit(holes: seq<Block>, y: Block, total: nat)
    requires Sorted(holes, Smaller)
    ensures var r := Inserted(holes, y, Smaller);
      var i := FirstFit(r, total, false);
      i < |r| && r[i] == y <==> total <= y.size && forall b :: b in r && total <= b.size ==> y.size <= b.size
  {
    hide FirstFit, InsertPos;
    InsertedSorted(holes, y, Smaller, (b: Block) => b.size);
    var r, p := Inserted(holes, y, Smaller), InsertPos(holes, y, Smaller);
    var i := FirstFit(r, total, false);
    assert r[p] == y && forall j :: 0 <= j < p ==> r[j] in r && r[j].size < y.size;
    assert !Fits(y, total, false) ==> !(i < |r| && r[i] == y);
    if i < |r| && r[i] == y {
      forall b | b in r && total <= b.size
        ensures y.size <= b.size
      {
        var j :| 0 <= j < |r| && r[j] == b;
        assert Fits(b, total, false) && i <= j;
      }
    }
  }

  /** Two blocks of a sound heap with one address are one block. */
  lemma SameAddr(h: Heap, b: Block, c: Block)
    requires Sound(h) && b in h.blocks && c in h.blocks && b.addr == c.addr
    ensures b == c
  {
    PositionUnique(h.blocks, h.start, h.end, Position(h.blocks, b), Position(h.blocks, c));
  }

  lemma InCore(bs: seq<Block>, b: Block)
    requires b in Core(bs)
    ensures b in bs
  {
  }

  /** A hole too small for a request does not serve it, grown or not. */
  lemma AllocNotAt(h: Heap, size: nat, x: Block)
    requires Sound(h) && Alloc(h, size, false).Some? && x in Core(h.blocks) && x.size < size + TAGS
    ensures Alloc(h, size, false).value.1 != x.Payload()
    decreases h.max - h.end
  {
    hide Tiles, BagOfHoles, Sorted, Coalesced, Place, Grown, Core, FirstFit;
    var total := size + TAGS;
    var i := FirstFit(h.holes, total, false);
    InCore(h.blocks, x);
    if i < |h.holes| {
      AllocFirst(h, size);
      if h.holes[i].addr == x.addr {
        SameAddr(h, h.holes[i], x);
      }
    } else {
      GrownSound(h, total);
      var e := GrownEnd(h, total).value;
      GrownCore(h, e);
      GrownFrame(h, e);
      AllocNotAt(Grown(h, e), size, x);
    }
  }

  /** A hole at the address of the block that was freed is the hole that freeing put back last. */
  lemma PutBack(s: Heap, k: nat, x: Block)
    requires Sound(s) && k < |s.blocks| && !s.blocks[k].hole && s.start <= Merged(s.blocks, k).addr
    requires x.hole && x.addr == s.blocks[k].addr && x in Freed(s, k).blocks
    ensures Sorted(HolesLeft(s, k), Smaller) && Freed(s, k).holes == Inserted(HolesLeft(s, k), x, Smaller)
  {
    hide Tiles, BagOfHoles, Sorted, Coalesced, HolesLeft, Merged, TrimmedEnd, LeftMerge, RightMerge;
    HolesLeftBag(s, k);
    var l, r := LeftMerge(s.blocks, k), RightMerge(s.blocks, k);
    var rest := Trimmed(s, Merged(s.blocks, k)).0;
    if x in s.blocks {
      SameAddr(s, x, s.blocks[k]);
    }
    assert x in rest;
  }

  /** The heap in front of the last release of a bracket: where it frees, and what it leaves. */
  lemma BracketFrees(h: Heap, size: nat, body: Nest)
    requires Sound(h) && RunNest(h, Bracket(size, false, body, Done)).Finished?
    ensures Alloc(h, size, false).Some?
    ensures exists s: Heap, k: nat ::
      LastFreed(s, k, Alloc(h, size, false).value.1, RunNest(h, Bracket(size, false, body, Done)).heap)
  {
    hide Tiles, BagOfHoles, Sorted, Coalesced, Freed, Merged, LiveAt, Alloc;
    var (r, p) := Alloc(h, size, false).value;
    AllocSound(h, size, false);
    var s := RunNest(r, body).heap;
    var k := LiveAt(s.blocks, p);
    FreedSound(s, k);
    assert LastFreed(s, k, p, RunNest(h, Bracket(size, false, body, Done)).heap);
  }

  /** `g` is what freeing the block with payload `p`, block `k` of `s`, leaves. */
  ghost predicate LastFreed(s: Heap, k: nat, p: nat, g: Heap) {
    && Sound(s) && k < |s.blocks| && !s.blocks[k].hole && s.blocks[k].Payload() == p
    && s.start <= Merged(s.blocks, k).addr && g == Freed(s, k)
  }

  /** The hole that served the bracketed request serves the later one exactly when it is a best fit. */
  lemma ServedAgain(s: Heap, k: nat, g: Heap, x: Block, later: nat)
    requires Sound(g) && LastFreed(s, k, x.Payload(), g) && x in Core(g.blocks) && x.hole
    requires Alloc(g, later, false).Some?
    ensures Alloc(g, later, false).value.1 == x.Payload() <==>
      later + TAGS <= x.size && forall b :: b in g.blocks && b.hole && later + TAGS <= b.size ==> x.size <= b.size
  {
    hide Tiles, BagOfHoles, Sorted, Coalesced, Core, Freed, Merged, HolesLeft, Inserted, FirstFit, Alloc;
    InCore(g.blocks, x);
    PutBack(s, k, x);
    FirstHit(HolesLeft(s, k), x, later + TAGS);
    HolesAreBlocks(g);
    var i := FirstFit(g.holes, later + TAGS, false);
    if i < |g.holes| {
      AllocFirst(g, later);
      if g.holes[i].addr == x.addr {
        SameAddr(g, g.holes[i], x);
      }
    } else {
      assert x in g.holes;
      var j :| 0 <= j < |g.holes| && g.holes[j] == x;
      assert !Fits(x, later + TAGS, false);
      AllocNotAt(g, later, x);
    }
  }

  /** The holes of a heap are those of its core and the final one. */
  lemma CoreOrLast(bs: seq<Block>, b: Block)
    requires b in bs
    ensures b in Core(bs) || (EndsInHole(bs) && b == bs[|bs| - 1])
  {
    var i :| 0 <= i < |bs| && bs[i] == b;
    if i < |Core(bs)| { assert Core(bs)[i] == b; }
  }

  /** The check `a == c` at the end of `kernel_main` for any nest of requests, when the first
      request was served from a hole `x` inside the heap: the later request gets the same address
      exactly when `x` has room for it and the hole at the end of the heap is no better fit. */
  lemma BootCheckInner(h: Heap, size: nat, body: Nest, later: nat)
    requires Sound(h) && size <= later
    requires var i := FirstFit(h.holes, size + TAGS, false); i < |h.holes| && h.holes[i] in Core(h.blocks)
    requires RunNest(h, Bracket(size, false, body, Done)).Finished?
    ensures var x := h.holes[FirstFit(h.holes, size + TAGS, false)];
      var g := RunNest(h, Bracket(size, false, body, Done)).heap;
      && Alloc(h, size, false).Some? && Alloc(h, size, false).value.1 == x.Payload()
      && (Alloc(g, later, false).Some? ==>
            (Alloc(g, later, false).value.1 == Alloc(h, size, false).value.1 <==>
               later + TAGS <= x.size
               && !(EndsInHole(g.blocks) && later + TAGS <= g.blocks[|g.blocks| - 1].size < x.size)))
  {
    hide Tiles, BagOfHoles, Sorted, Coalesced, Core, Alloc, Freed, Merged, FirstFit, RunNest, LastFreed;
    var n := Bracket(size, false, body, Done);
    NestRestores(h, n);
    BracketFrees(h, size, body);
    AllocFirst(h, size);
    BestFit(h, size + TAGS);
    var x, g := h.holes[FirstFit(h.holes, size + TAGS, false)], RunNest(h, n).heap;
    if Alloc(g, later, false).Some? {
      var s, k :| LastFreed(s, k, Alloc(h, size, false).value.1, g);
      ServedAgain(s, k, g, x, later);
      OnlyLastSmaller(h, g, x, later + TAGS);
    }
  }

  /** Between heaps of one core only the final hole can be a better fit. */
  lemma OnlyLastSmaller(h: Heap, g: Heap, x: Block, total: nat)
    requires Core(h.blocks) == Core(g.blocks)
    requires forall b :: b in h.blocks && b.hole && total <= b.size ==> x.size <= b.size
    ensures (forall b :: b in g.blocks && b.hole && total <= b.size ==> x.size <= b.size) <==>
      !(EndsInHole(g.blocks) && total <= g.blocks[|g.blocks| - 1].size < x.size)
  {
    hide Core;
    forall b | b in g.blocks && b.hole && total <= b.size && b.size < x.size
      ensures EndsInHole(g.blocks) && b == g.blocks[|g.blocks| - 1]
    {
      CoreOrLast(g.blocks, b);
      if b in Core(h.blocks) { InCore(h.blocks, b); }
    }
  }

  /** When no inner hole suffices for the first request, the later one is served from its place. */
  lemma BootCheck(h: Heap, size: nat, body: Nest, later: nat)
    requires Sound(h) && size <= later
    requires forall b :: b in Core(h.blocks) && b.hole ==> b.size < size + TAGS
    requires RunNest(h, Bracket(size, false, body, Done)).Finished?
    ensures var g := RunNest(h, Bracket(size, false, body, Done)).heap;
      Alloc(h, size, false).Some? && (Alloc(g, later, false).Some? ==>
        Alloc(g, later, false).value.1 == Alloc(h, size, false).value.1)
  {
    hide Tiles, BagOfHoles, Sorted, Coalesced, Core, Alloc;
    var n := Bracket(size, false, body, Done);
    NestRestores(h, n);
    NestFrame(h, n);
    var g := RunNest(h, n).heap;
    AllocAtTail(h, size);
    if Alloc(g, later, false).Some? {
      AllocAtTail(g, later);
    }
  }

  /** While core and `x` together are no longer than the least heap, the final hole
      is never the better fit: the later request gets the same address exactly when `x` has room. */
  lemma BootCheckEarly(h: Heap, size: nat, body: Nest, later: nat)
    requires Sound(h) && size <= later
    requires var i := FirstFit(h.holes, size + TAGS, false);
      i < |h.holes| && h.holes[i] in Core(h.blocks) && CoreEnd(h) + h.holes[i].size <= h.start + HEAP_MIN
    requires RunNest(h, Bracket(size, false, body, Done)).Finished?
    ensures var x := h.holes[FirstFit(h.holes, size + TAGS, false)];
      var g := RunNest(h, Bracket(size, false, body, Done)).heap;
      && Alloc(h, size, false).Some?
      && (Alloc(g, later, false).Some? ==>
            (Alloc(g, later, false).value.1 == Alloc(h, size, false).value.1 <==> later + TAGS <= x.size))
  {
    hide Tiles, BagOfHoles, Sorted, Coalesced, Core, Alloc, FirstFit, RunNest;
    var n := Bracket(size, false, body, Done);
    BootCheckInner(h, size, body, later);
    NestRestores(h, n);
    NestFrame(h, n);
    var g := RunNest(h, n).heap;
    if EndsInHole(g.blocks) { LastHoleSize(g); }
  }

  lemma LastHoleSize(h: Heap)
    requires Sound(h) && EndsInHole(h.blocks)
    ensures h.blocks[|h.blocks| - 1].addr == CoreEnd(h) && h.blocks[|h.blocks| - 1].End() == h.end
  {
    hide BagOfHoles, Sorted, Coalesced;
    TilesBounds(h.blocks, h.start, h.end);
    var n := |h.blocks|;
    if n > 1 { TilesOrdered(h.blocks, h.start, h.end, n - 2, n - 1); }
  }

  lemma CoreBelowEnd(h: Heap, b: Block)
    requires Sound(h) && b in Core(h.blocks)
    ensures b.addr < CoreEnd(h)
  {
    hide BagOfHoles, Sorted, Coalesced;
    var c := Core(h.blocks);
    var i :| 0 <= i < |c| && c[i] == b;
    TilesBounds(h.blocks, h.start, h.end);
    assert h.blocks[i] == b && h.blocks[|c| - 1] == c[|c| - 1] && b in h.blocks && c[|c| - 1] in h.blocks;
    if i < |c| - 1 { TilesOrdered(h.blocks, h.start, h.end, i, |c| - 1); }
  }

  /** Whether the hole at the end of the heap is a best fit. */
  ghost predicate LastBest(bs: seq<Block>, total: nat) {
    && EndsInHole(bs) && total <= bs[|bs| - 1].size
    && forall b :: b in bs && b.hole && total <= b.size ==> bs[|bs| - 1].size <= b.size
  }

  /** When an inner hole suffices, a request gets the place behind the core, whose block was freed
      last, exactly when the final hole is a best fit. */
  lemma TailAgain(s: Heap, k: nat, g: Heap, later: nat)
    requires Sound(g) && LastFreed(s, k, CoreEnd(g) + HEADER, g)
    requires exists b :: b in Core(g.blocks) && b.hole && later + TAGS <= b.size
    ensures Alloc(g, later, false).Some?
    ensures Alloc(g, later, false).value.1 == CoreEnd(g) + HEADER <==> LastBest(g.blocks, later + TAGS)
  {
    hide Tiles, BagOfHoles, Sorted, Coalesced, Core, CoreEnd, Freed, Merged, HolesLeft, Inserted, FirstFit, Alloc;
    var total := later + TAGS;
    BestFit(g, total);
    var b :| b in Core(g.blocks) && b.hole && total <= b.size;
    InCore(g.blocks, b);
    AllocFirst(g, later);
    var hit := g.holes[FirstFit(g.holes, total, false)];
    CoreOrLast(g.blocks, hit);
    if hit in Core(g.blocks) { CoreBelowEnd(g, hit); }
    if EndsInHole(g.blocks) {
      LastHoleSize(g);
      var last := g.blocks[|g.blocks| - 1];
      PutBack(s, k, last);
      FirstHit(HolesLeft(s, k), last, total);
      HolesAreBlocks(g);
      if hit.addr == last.addr { SameAddr(g, hit, last); }
    }
  }

  /** The same check when the first request was served behind the core, from the final hole or by
      growing: the later request gets the same address exactly when no inner hole has room for it
      or the final hole is a best fit. */
  lemma BootCheckOuter(h: Heap, size: nat, body: Nest, later: nat)
    requires Sound(h) && size <= later
    requires var i := FirstFit(h.holes, size + TAGS, false); i < |h.holes| ==> h.holes[i] !in Core(h.blocks)
    requires RunNest(h, Bracket(size, false, body, Done)).Finished?
    ensures var g := RunNest(h, Bracket(size, false, body, Done)).heap;
      && Alloc(h, size, false).Some? && Alloc(h, size, false).value.1 == CoreEnd(h) + HEADER
      && (Alloc(g, later, false).Some? ==>
            (Alloc(g, later, false).value.1 == Alloc(h, size, false).value.1 <==>
               LastBest(g.blocks, later + TAGS)
               || forall b :: b in Core(h.blocks) && b.hole ==> b.size < later + TAGS))
  {
    hide Tiles, BagOfHoles, Sorted, Coalesced, Core, Alloc, FirstFit, RunNest, LastFreed, LastBest;
    var n := Bracket(size, false, body, Done);
    NestRestores(h, n);
    NestFrame(h, n);
    BracketFrees(h, size, body);
    var g := RunNest(h, n).heap;
    ServedBehind(h, size);
    assert CoreEnd(g) == CoreEnd(h);
    if Alloc(g, later, false).Some? {
      if b :| b in Core(h.blocks) && b.hole && later + TAGS <= b.size {
        var s, k :| LastFreed(s, k, Alloc(h, size, false).value.1, g);
        TailAgain(s, k, g, later);
      } else {
        AllocAtTail(g, later);
      }
    }
  }

  lemma ServedBehind(h: Heap, size: nat)
    requires Sound(h) && Alloc(h, size, false).Some?
    requires var i := FirstFit(h.holes, size + TAGS, false); i < |h.holes| ==> h.holes[i] !in Core(h.blocks)
    ensures Alloc(h, size, false).value.1 == CoreEnd(h) + HEADER
  {
    hide Tiles, BagOfHoles, Sorted, Coalesced, Core, CoreEnd, Alloc, FirstFit;
    var i := FirstFit(h.holes, size + TAGS, false);
    if i < |h.holes| {
      AllocFirst(h, size);
      FinalHole(h, h.holes[i]);
    } else {
      BestFit(h, size + TAGS);
      forall b | b in Core(h.blocks) && b.hole
        ensures b.size < size + TAGS
      {
        InCore(h.blocks, b);
      }
      AllocAtTail(h, size);
    }
  }

  lemma {:induction false} NestFrame(h: Heap, n: Nest)
    requires Sound(h) && RunNest(h, n).Finished?
    ensures RunNest(h, n).heap.start == h.start
    decreases n
  {
    hide Tiles, BagOfHoles, Sorted, Coalesced, Freed, Merged, LiveAt, Alloc;
    match n
    case Done =>
    case Bracket(size, align, body, rest) =>
      AllocSound(h, size, align);
      var (r, p) := Alloc(h, size, align).value;
      NestFrame(r, body);
      var g := RunNest(r, body).heap;
      var k := LiveAt(g.blocks, p);
      FreedSound(g, k);
      FreedFrame(g, k);
      NestFrame(Freed(g, k), rest);
  }
}
