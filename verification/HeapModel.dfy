/**
 The boundary-tag heap on values: a heap is the list of blocks that tile it
 and the list of its holes in index order (src/mem/alloc.c, src/mem/heap.c).
 */
module HeapModel {
  import opened Machine
  import opened OrderedArrays

  const HEADER: nat := 12
  const FOOTER: nat := 8
  const TAGS: nat := HEADER + FOOTER
  const HEAP_MIN: nat := 0x70000

  /** A block of `size` bytes, tags included, whose header lies at `addr`. */
  datatype Block = Block(addr: nat, size: nat, hole: bool) {
    function End(): nat { addr + size }
    function Payload(): nat { addr + HEADER }
  }

  datatype Heap = Heap(start: nat, end: nat, max: nat, blocks: seq<Block>, holes: seq<Block>)

  // ---------------------------------------------------------------- tilings

  /** Stepping by block size from `lo` lands exactly on `hi`. */
  ghost predicate Tiles(bs: seq<Block>, lo: nat, hi: nat) {
    if bs == [] then lo == hi
    else bs[0].addr == lo && TAGS <= bs[0].size && Tiles(bs[1..], bs[0].End(), hi)
  }

  ghost predicate Coalesced(bs: seq<Block>) {
    forall i :: 0 < i < |bs| ==> !(bs[i - 1].hole && bs[i].hole)
  }

  function BagOfHoles(bs: seq<Block>): multiset<Block> {
    if bs == [] then multiset{}
    else (if bs[0].hole then multiset{bs[0]} else multiset{}) + BagOfHoles(bs[1..])
  }

  predicate Smaller(a: Block, b: Block) { a.size < b.size }

  /** The heap invariant. */
  ghost predicate Sound(h: Heap) {
    && h.start % PAGE == 0 && h.end % PAGE == 0
    && h.start + HEAP_MIN <= h.end <= h.max < U32
    && Tiles(h.blocks, h.start, h.end)
    && Coalesced(h.blocks)
    && multiset(h.holes) == BagOfHoles(h.blocks)
    && Sorted(h.holes, Smaller)
  }

  lemma {:induction false} TilesAppend(a: seq<Block>, b: seq<Block>, lo: nat, mid: nat, hi: nat)
    requires Tiles(a, lo, mid) && Tiles(b, mid, hi)
    ensures Tiles(a + b, lo, hi)
  {
    if a == [] {
      assert a + b == b;
    } else {
      TilesAppend(a[1..], b, a[0].End(), mid, hi);
      assert (a + b)[1..] == a[1..] + b;
    }
  }

  lemma {:induction false} TilesSplit(bs: seq<Block>, lo: nat, hi: nat, k: nat)
    requires Tiles(bs, lo, hi) && k <= |bs|
    ensures var mid := if k < |bs| then bs[k].addr else hi;
      lo <= mid <= hi && Tiles(bs[..k], lo, mid) && Tiles(bs[k..], mid, hi)
  {
    if k == 0 {
      TilesBounds(bs, lo, hi);
    } else {
      TilesSplit(bs[1..], bs[0].End(), hi, k - 1);
      assert bs[..k][1..] == bs[1..][..k - 1];
      assert bs[k..] == bs[1..][k - 1..];
    }
  }

  lemma {:induction false} TilesBounds(bs: seq<Block>, lo: nat, hi: nat)
    requires Tiles(bs, lo, hi)
    ensures lo <= hi
    ensures forall b :: b in bs ==> lo <= b.addr && b.End() <= hi && TAGS <= b.size
    ensures lo < hi ==> bs != [] && bs[|bs| - 1].End() == hi
  {
    if bs != [] {
      TilesBounds(bs[1..], bs[0].End(), hi);
    }
  }

  /** Blocks are disjoint, in address order. */
  lemma TilesOrdered(bs: seq<Block>, lo: nat, hi: nat, i: nat, j: nat)
    requires Tiles(bs, lo, hi) && i < j < |bs|
    ensures bs[i].End() <= bs[j].addr
    ensures j == i + 1 ==> bs[i].End() == bs[j].addr
  {
    TilesSplit(bs, lo, hi, i);
    TilesSplit(bs[i..], bs[i].addr, hi, 1);
    assert bs[i..][1..] == bs[i + 1..];
    TilesBounds(bs[i + 1..], bs[i].End(), hi);
    assert bs[j] == bs[i + 1..][j - i - 1];
  }

  lemma BagOfOne(b: Block)
    ensures BagOfHoles([b]) == if b.hole then multiset{b} else multiset{}
  {
    assert [b][1..] == [];
  }

  lemma BagOfFew(bs: seq<Block>)
    requires |bs| <= 1 && forall b :: b in bs ==> b.hole
    ensures BagOfHoles(bs) == multiset(bs)
  {
    if bs != [] { assert bs == [bs[0]]; BagOfOne(bs[0]); }
  }

  lemma TilesOne(b: Block)
    requires TAGS <= b.size
    ensures Tiles([b], b.addr, b.End())
  {
    assert [b][1..] == [];
  }

  lemma {:induction false} BagAppend(a: seq<Block>, b: seq<Block>)
    ensures BagOfHoles(a + b) == BagOfHoles(a) + BagOfHoles(b)
  {
    if a == [] {
      assert a + b == b;
    } else {
      BagAppend(a[1..], b);
      assert (a + b)[1..] == a[1..] + b;
      var x := if a[0].hole then multiset{a[0]} else multiset{};
      assert BagOfHoles(a + b) == x + BagOfHoles(a[1..] + b);
      Associate(x, BagOfHoles(a[1..]), BagOfHoles(b));
    }
  }

  lemma Associate(a: multiset<Block>, b: multiset<Block>, c: multiset<Block>)
    ensures a + (b + c) == a + b + c
  {
  }

  lemma {:induction false} BagMembers(bs: seq<Block>)
    ensures forall b :: b in BagOfHoles(bs) <==> b in bs && b.hole
  {
    if bs != [] {
      BagMembers(bs[1..]);
      assert bs == [bs[0]] + bs[1..];
    }
  }

  // ---------------------------------------------------------------- splicing

  /** `bs` with the `n` blocks from position `k` on replaced by `pieces`. */
  function Splice(bs: seq<Block>, k: nat, n: nat, pieces: seq<Block>): seq<Block>
    requires k + n <= |bs|
  {
    bs[..k] + pieces + bs[k + n..]
  }

  lemma SpliceTiles(bs: seq<Block>, lo: nat, hi: nat, k: nat, n: nat, pieces: seq<Block>)
    requires Tiles(bs, lo, hi) && 0 < n && k + n <= |bs|
    requires Tiles(pieces, bs[k].addr, bs[k + n - 1].End())
    ensures Tiles(Splice(bs, k, n, pieces), lo, hi)
  {
    TilesSplit(bs, lo, hi, k);
    TilesSplit(bs, lo, hi, k + n);
    if k + n < |bs| {
      TilesOrdered(bs, lo, hi, k + n - 1, k + n);
    } else {
      TilesBounds(bs, lo, hi);
    }
    TilesAppend(bs[..k], pieces, lo, bs[k].addr, bs[k + n - 1].End());
    TilesAppend(bs[..k] + pieces, bs[k + n..], lo, bs[k + n - 1].End(), hi);
  }

  lemma BagOfThree(a: seq<Block>, b: seq<Block>, c: seq<Block>)
    ensures BagOfHoles(a + b + c) == BagOfHoles(a) + BagOfHoles(b) + BagOfHoles(c)
  {
    BagAppend(a + b, c);
    BagAppend(a, b);
  }

  lemma ExchangeMiddle(a: multiset<Block>, b: multiset<Block>, c: multiset<Block>, d: multiset<Block>)
    ensures (a + b + c) + d == (a + d + c) + b
  {
  }

  lemma Regroup(a: multiset<Block>, b: multiset<Block>, c: multiset<Block>, d: multiset<Block>)
    ensures a + b + c + d == a + d + (b + c)
    ensures c == multiset{} ==> a + b + d == a + d + b
  {
  }

  lemma SpliceBag(bs: seq<Block>, k: nat, n: nat, pieces: seq<Block>)
    requires k + n <= |bs|
    ensures BagOfHoles(Splice(bs, k, n, pieces)) + BagOfHoles(bs[k..k + n]) == BagOfHoles(bs) + BagOfHoles(pieces)
  {
    hide BagOfHoles;
    BagOfThree(bs[..k], pieces, bs[k + n..]);
    BagOfThree(bs[..k], bs[k..k + n], bs[k + n..]);
    assert bs == bs[..k] + bs[k..k + n] + bs[k + n..];
    ExchangeMiddle(BagOfHoles(bs[..k]), BagOfHoles(pieces), BagOfHoles(bs[k + n..]), BagOfHoles(bs[k..k + n]));
  }

  /** When the index loses and gains the same blocks as the tiling, it stays the bag of holes. */
  lemma SameBag(oldIndex: multiset<Block>, newIndex: multiset<Block>, oldBag: multiset<Block>, newBag: multiset<Block>,
                lost: multiset<Block>, gained: multiset<Block>)
    requires oldIndex == oldBag
    requires newIndex + lost == oldIndex + gained
    requires newBag + lost == oldBag + gained
    ensures newIndex == newBag
  {
    forall b ensures newIndex[b] == newBag[b] {
      assert (newIndex + lost)[b] == (newBag + lost)[b];
    }
  }

  /** Position of block `b` in `bs`. */
  function Position(bs: seq<Block>, b: Block): (k: nat)
    requires b in bs
    ensures k < |bs| && bs[k] == b
  {
    if bs[0] == b then 0 else 1 + Position(bs[1..], b)
  }

  /** In a tiling a block is determined by its position, and the position by the address. */
  lemma PositionUnique(bs: seq<Block>, lo: nat, hi: nat, k: nat, j: nat)
    requires Tiles(bs, lo, hi) && k < |bs| && j < |bs| && bs[j].addr == bs[k].addr
    ensures k == j == Position(bs, bs[k])
  {
    var p := Position(bs, bs[k]);
    TilesBounds(bs, lo, hi);
    if k < j { TilesOrdered(bs, lo, hi, k, j); }
    if j < k { TilesOrdered(bs, lo, hi, j, k); }
    if k < p { TilesOrdered(bs, lo, hi, k, p); }
    if p < k { TilesOrdered(bs, lo, hi, p, k); }
  }

  // ---------------------------------------------------------------- alloc

  /** Bytes to skip in a hole at `addr` so that the payload is page aligned; a
      skipped part must hold the tags of a hole of its own. */
  function Gap(addr: nat, align: bool): (g: nat)
    ensures g == 0 || TAGS <= g < TAGS + PAGE
    ensures align ==> (addr + g + HEADER) % PAGE == 0
    ensures !align ==> g == 0
  {
    if !align || (addr + HEADER) % PAGE == 0 then 0
    else
      var off := PAGE - (addr + HEADER) % PAGE;
      if off < TAGS then off + PAGE else off
  }

  predicate Fits(b: Block, total: nat, align: bool) {
    Gap(b.addr, align) + total <= b.size
  }

  /** `find_smallest_hole`: the first fitting entry of the index, `|holes|` if there is none. */
  function FirstFit(holes: seq<Block>, total: nat, align: bool): (i: nat)
    ensures i <= |holes|
    ensures i < |holes| ==> Fits(holes[i], total, align)
    ensures forall j :: 0 <= j < i ==> !Fits(holes[j], total, align)
  {
    if holes == [] || Fits(holes[0], total, align) then 0 else 1 + FirstFit(holes[1..], total, align)
  }

  /** The part of hole `b` that the new block takes; a remainder too small for tags is taken too. */
  function Carved(b: Block, total: nat, align: bool): (r: Block)
    requires Fits(b, total, align)
  {
    var gap := Gap(b.addr, align);
    var room := b.size - gap;
    Block(b.addr + gap, if room - total < TAGS then room else total, false)
  }

  /** A block of `total` bytes with its header at `at` can be cut out of hole `b`: what is left in
      front is nothing or has room for tags, and the payload is page aligned when asked. */
  predicate CanHold(b: Block, total: nat, align: bool, at: nat) {
    && (at == b.addr || b.addr + TAGS <= at) && at + total <= b.End()
    && (align ==> (at + 12) % 0x1000 == 0)
  }

  /** A hole fits exactly when there is a place for the block in it; the block takes the lowest, and
      no more than it needs apart from a remainder without room for tags. */
  lemma FitsMeans(b: Block, total: nat, align: bool)
    ensures Fits(b, total, align) <==> exists at: nat :: CanHold(b, total, align, at)
    ensures Fits(b, total, align) ==>
      var c := Carved(b, total, align);
      && CanHold(b, total, align, c.addr) && (forall at: nat :: CanHold(b, total, align, at) ==> c.addr <= at)
      && total <= c.size < total + TAGS && (c.size == total || c.End() == b.End()) && c.End() <= b.End() && !c.hole
  {
    var low := b.addr + Gap(b.addr, align);
    forall at: nat | CanHold(b, total, align, at)
      ensures low <= at
    {
      LowestPlace(b.addr, align, at);
    }
    assert Fits(b, total, align) ==> CanHold(b, total, align, low);
  }

  lemma LowestPlace(addr: nat, align: bool, at: nat)
    requires at == addr || addr + TAGS <= at
    requires align ==> (at + HEADER) % PAGE == 0
    ensures addr + Gap(addr, align) <= at
  {
  }

  function Front(b: Block, total: nat, align: bool): (r: seq<Block>)
    ensures |r| <= 1
  {
    var gap := Gap(b.addr, align);
    if gap == 0 then [] else [Block(b.addr, gap, true)]
  }

  function Back(b: Block, total: nat, align: bool): (r: seq<Block>)
    requires Fits(b, total, align)
    ensures |r| <= 1
  {
    var c := Carved(b, total, align);
    if c.End() == b.End() then [] else [Block(c.End(), b.End() - c.End(), true)]
  }

  function Pieces(b: Block, total: nat, align: bool): seq<Block>
    requires Fits(b, total, align)
  {
    Front(b, total, align) + [Carved(b, total, align)] + Back(b, total, align)
  }

  function InsertAll(holes: seq<Block>, added: seq<Block>): seq<Block>
    requires |added| <= 1
  {
    if added == [] then holes else Inserted(holes, added[0], Smaller)
  }

  /** Take a block out of hole number `i` of the index. */
  function Place(h: Heap, i: nat, total: nat, align: bool): (r: Heap)
    requires i < |h.holes| && h.holes[i] in h.blocks && Fits(h.holes[i], total, align)
  {
    var b := h.holes[i];
    var k := Position(h.blocks, b);
    h.(blocks := Splice(h.blocks, k, 1, Pieces(b, total, align)),
       holes := InsertAll(InsertAll(Removed(h.holes, i), Front(b, total, align)), Back(b, total, align)))
  }

  lemma PiecesTile(b: Block, total: nat, align: bool)
    requires Fits(b, total, align) && TAGS <= total
    ensures Tiles(Pieces(b, total, align), b.addr, b.End())
  {
    hide Gap;
    var f, c, k := Front(b, total, align), Carved(b, total, align), Back(b, total, align);
    TilesOne(c);
    if f != [] { TilesOne(f[0]); assert f == [f[0]]; }
    if k != [] { TilesOne(k[0]); assert k == [k[0]]; }
    TilesAppend(f, [c], b.addr, c.addr, c.End());
    TilesAppend(f + [c], k, b.addr, c.End(), b.End());
  }

  lemma PiecesBag(b: Block, total: nat, align: bool)
    requires Fits(b, total, align)
    ensures BagOfHoles(Pieces(b, total, align)) == multiset(Front(b, total, align)) + multiset(Back(b, total, align))
    ensures Coalesced(Pieces(b, total, align))
  {
    hide BagOfHoles, Gap;
    var f, c, k := Front(b, total, align), Carved(b, total, align), Back(b, total, align);
    BagOfThree(f, [c], k);
    BagOfFew(f);
    BagOfFew(k);
    BagOfOne(c);
  }

  lemma InsertedHoles(holes: seq<Block>, added: seq<Block>)
    requires |added| <= 1 && Sorted(holes, Smaller)
    ensures |added| == 1 ==> InsertAll(holes, added) == Inserted(holes, added[0], Smaller)
    ensures Sorted(InsertAll(holes, added), Smaller)
    ensures multiset(InsertAll(holes, added)) == multiset(holes) + multiset(added)
  {
    if added != [] {
      InsertedSorted(holes, added[0], Smaller, (b: Block) => b.size);
      InsertedBag(holes, added[0], Smaller);
      assert added == [added[0]];
    }
  }

  lemma HolesAreBlocks(h: Heap)
    requires Sound(h)
    ensures forall b :: b in h.holes <==> b in h.blocks && b.hole
  {
    BagMembers(h.blocks);
    assert forall b :: b in h.holes <==> b in multiset(h.holes);
  }

  lemma PlaceBag(h: Heap, i: nat, total: nat, align: bool)
    requires Sound(h) && i < |h.holes| && TAGS <= total && Fits(h.holes[i], total, align)
    requires h.holes[i] in h.blocks && h.holes[i].hole
    ensures var r := Place(h, i, total, align);
      Sorted(r.holes, Smaller) && multiset(r.holes) == BagOfHoles(r.blocks)
  {
    hide BagOfHoles, Tiles, Coalesced, Sorted, Pieces, Front, Back, InsertAll, Removed, Splice;
    var b := h.holes[i];
    var k := Position(h.blocks, b);
    var f, ps, t := Front(b, total, align), Pieces(b, total, align), Back(b, total, align);
    var left := Removed(h.holes, i);
    RemovedSorted(h.holes, i, Smaller);
    InsertedHoles(left, f);
    InsertedHoles(InsertAll(left, f), t);
    PiecesBag(b, total, align);
    SpliceBag(h.blocks, k, 1, ps);
    assert h.blocks[k..k + 1] == [b];
    BagOfOne(b);
    var r := Place(h, i, total, align);
    Regroup(multiset(left), multiset(f), multiset(t), multiset{b});
    SameBag(multiset(h.holes), multiset(r.holes), BagOfHoles(h.blocks),
      BagOfHoles(r.blocks), multiset{b}, multiset(f) + multiset(t));
  }

  lemma PlaceSound(h: Heap, i: nat, total: nat, align: bool)
    requires Sound(h) && i < |h.holes| && TAGS <= total && Fits(h.holes[i], total, align)
    ensures h.holes[i] in h.blocks
    ensures Sound(Place(h, i, total, align))
  {
    HolesAreBlocks(h);
    var b := h.holes[i];
    assert b in h.holes;
    PlaceBag(h, i, total, align);
    var k := Position(h.blocks, b);
    var ps := Pieces(b, total, align);
    PiecesTile(b, total, align);
    PiecesBag(b, total, align);
    SpliceTiles(h.blocks, h.start, h.end, k, 1, ps);
    SpliceCoalesced(h.blocks, k, 1, ps);
  }

  lemma SpliceCoalesced(bs: seq<Block>, k: nat, n: nat, ps: seq<Block>)
    requires 0 < n && k + n <= |bs| && Coalesced(bs) && Coalesced(ps)
    requires 0 < k && bs[k - 1].hole ==> |ps| > 0 && !ps[0].hole
    requires k + n < |bs| && bs[k + n].hole ==> |ps| > 0 && !ps[|ps| - 1].hole
    ensures Coalesced(Splice(bs, k, n, ps))
  {
    var r := Splice(bs, k, n, ps);
    forall i | 0 < i < |r|
      ensures !(r[i - 1].hole && r[i].hole)
    {
      if i < k {
        assert r[i] == bs[i] && r[i - 1] == bs[i - 1];
      } else if k + |ps| < i {
        assert r[i] == bs[i - |ps| + n] && r[i - 1] == bs[i - 1 - |ps| + n];
      }
    }
  }

  /** Best fit: the index order makes the first fit a smallest sufficient hole. */
  lemma BestFit(h: Heap, total: nat)
    requires Sound(h)
    ensures var i := FirstFit(h.holes, total, false);
      && (i < |h.holes| ==> h.holes[i] in h.blocks && h.holes[i].hole && total <= h.holes[i].size)
      && (i < |h.holes| ==> forall b :: b in h.blocks && b.hole && total <= b.size ==> h.holes[i].size <= b.size)
      && (i == |h.holes| ==> forall b :: b in h.blocks && b.hole ==> b.size < total)
  {
    HolesAreBlocks(h);
    var i := FirstFit(h.holes, total, false);
    if i < |h.holes| {
      assert h.holes[i] in h.holes;
      forall b | b in h.blocks && b.hole && total <= b.size
        ensures h.holes[i].size <= b.size
      {
        var j :| 0 <= j < |h.holes| && h.holes[j] == b;
        assert Fits(b, total, false);
        assert i <= j;
      }
    } else {
      forall b | b in h.blocks && b.hole
        ensures b.size < total
      {
        var j :| 0 <= j < |h.holes| && h.holes[j] == b;
        assert !Fits(h.holes[j], total, false);
      }
    }
  }

  // ---------------------------------------------------------------- growing

  predicate EndsInHole(bs: seq<Block>) { bs != [] && bs[|bs| - 1].hole }

  /** `make_space`: the new end of the heap, or None when it would pass `max`. */
  function GrownEnd(h: Heap, total: nat): Option<nat>
    requires h.start <= h.end
  {
    var e := h.start + AlignUp(h.end - h.start + total);
    if e <= h.max then Some(e) else None
  }

  function Grown(h: Heap, e: nat): Heap
    requires h.end <= e
    requires EndsInHole(h.blocks) ==> h.blocks[|h.blocks| - 1] in h.holes
  {
    if EndsInHole(h.blocks) then
      var last := h.blocks[|h.blocks| - 1];
      var more := last.(size := last.size + (e - h.end));
      h.(end := e,
         blocks := Splice(h.blocks, |h.blocks| - 1, 1, [more]),
         holes := Inserted(Removed(h.holes, Position(h.holes, last)), more, Smaller))
    else
      var more := Block(h.end, e - h.end, true);
      h.(end := e, blocks := h.blocks + [more], holes := Inserted(h.holes, more, Smaller))
  }

  lemma GrownTiles(h: Heap, e: nat)
    requires Sound(h) && h.end + TAGS <= e
    requires EndsInHole(h.blocks) ==> h.blocks[|h.blocks| - 1] in h.holes
    ensures var g := Grown(h, e);
      Tiles(g.blocks, h.start, e) && Coalesced(g.blocks) && EndsInHole(g.blocks) &&
        e - h.end <= g.blocks[|g.blocks| - 1].size
  {
    hide BagOfHoles, Sorted, Inserted, Removed, Tiles;
    var bs, n := h.blocks, |h.blocks|;
    if EndsInHole(bs) {
      var last := bs[n - 1];
      var more := last.(size := last.size + (e - h.end));
      TilesOne(more);
      TilesBounds(bs, h.start, h.end);
      TilesSplit(bs, h.start, h.end, n - 1);
      TilesAppend(bs[..n - 1], [more], h.start, last.addr, e);
      assert Splice(bs, n - 1, 1, [more]) == bs[..n - 1] + [more];
    } else {
      TilesOne(Block(h.end, e - h.end, true));
      TilesAppend(bs, [Block(h.end, e - h.end, true)], h.start, h.end, e);
    }
  }

  lemma GrownBag(h: Heap, e: nat)
    requires Sound(h) && h.end <= e
    requires EndsInHole(h.blocks) ==> h.blocks[|h.blocks| - 1] in h.holes
    ensures var g := Grown(h, e);
      Sorted(g.holes, Smaller) && multiset(g.holes) == BagOfHoles(g.blocks)
  {
    hide BagOfHoles, Tiles, Coalesced, Sorted, Inserted, Removed, Splice;
    var bs, n, g := h.blocks, |h.blocks|, Grown(h, e);
    if EndsInHole(bs) {
      var last := bs[n - 1];
      var more := last.(size := last.size + (e - h.end));
      var left := Removed(h.holes, Position(h.holes, last));
      RemovedSorted(h.holes, Position(h.holes, last), Smaller);
      InsertedHoles(left, [more]);
      SpliceBag(bs, n - 1, 1, [more]);
      assert bs[n - 1..n] == [last];
      BagOfOne(last);
      BagOfOne(more);
      Regroup(multiset(left), multiset{more}, multiset{}, multiset{last});
      SameBag(multiset(h.holes), multiset(g.holes), BagOfHoles(bs),
        BagOfHoles(g.blocks), multiset{last}, multiset{more});
    } else {
      var more := Block(h.end, e - h.end, true);
      BagAppend(bs, [more]);
      InsertedHoles(h.holes, [more]);
      BagOfOne(more);
    }
  }

  lemma GrownSound(h: Heap, total: nat)
    requires Sound(h) && TAGS <= total && GrownEnd(h, total).Some?
    ensures EndsInHole(h.blocks) ==> h.blocks[|h.blocks| - 1] in h.holes
    ensures var e := GrownEnd(h, total).value;
      && h.end + total <= e <= h.max && Sound(Grown(h, e))
      && var g := Grown(h, e);
         EndsInHole(g.blocks) && total <= g.blocks[|g.blocks| - 1].size
  {
    hide Tiles, BagOfHoles, Sorted, Coalesced;
    HolesAreBlocks(h);
    var e := GrownEnd(h, total).value;
    GrownTiles(h, e);
    GrownBag(h, e);
  }

  /** `alloc`: grow until a hole fits; the heap and the payload address, or None when `max` is passed. */
  ghost function Alloc(h: Heap, size: nat, align: bool): (r: Option<(Heap, nat)>)
    requires Sound(h)
    decreases h.max - h.end
  {
    var total := size + TAGS;
    var i := FirstFit(h.holes, total, align);
    if i < |h.holes| then
      PlaceSound(h, i, total, align);
      Some((Place(h, i, total, align), Carved(h.holes[i], total, align).Payload()))
    else if GrownEnd(h, total).None? then None
    else
      GrownSound(h, total);
      Alloc(Grown(h, GrownEnd(h, total).value), size, align)
  }

  // ---------------------------------------------------------------- free

  /** Blocks merged on the left and on the right when block `k` becomes a hole. */
  function LeftMerge(bs: seq<Block>, k: nat): (l: nat)
    requires k < |bs|
    ensures l <= 1 && l <= k
  {
    if 0 < k && bs[k - 1].hole then 1 else 0
  }

  function RightMerge(bs: seq<Block>, k: nat): (r: nat)
    requires k < |bs|
    ensures r <= 1 && k + r < |bs|
  {
    if k + 1 < |bs| && bs[k + 1].hole then 1 else 0
  }

  /** The hole that freeing block `k` leaves before trimming. */
  function Merged(bs: seq<Block>, k: nat): Block
    requires k < |bs|
  {
    var l, r := LeftMerge(bs, k), RightMerge(bs, k);
    var left, right := if l == 1 then bs[k - 1].size else 0, if r == 1 then bs[k + 1].size else 0;
    Block(bs[k - l].addr, left + bs[k].size + right, true)
  }

  /** `contract`: the end of the heap after trimming a final hole at `addr`. What is left
      of the hole is nothing or room for tags. */
  function TrimmedEnd(start: nat, addr: nat): (e: nat)
    requires start <= addr
    ensures addr <= e
  {
    var len := AlignUp(addr - start);
    var e := start + if len < HEAP_MIN then HEAP_MIN else len;
    if 0 < e - addr < TAGS then e + PAGE else e
  }

  function Without(holes: seq<Block>, b: Block): seq<Block> {
    if b in holes then Removed(holes, Position(holes, b)) else holes
  }

  /** The index once the merged neighbours are out of it. */
  function HolesLeft(h: Heap, k: nat): seq<Block>
    requires k < |h.blocks|
  {
    var l, r := LeftMerge(h.blocks, k), RightMerge(h.blocks, k);
    var hs := if l == 1 then Without(h.holes, h.blocks[k - 1]) else h.holes;
    if r == 1 then Without(hs, h.blocks[k + 1]) else hs
  }

  /** The hole that is left after trimming, if any, and the new end. */
  function Trimmed(h: Heap, m: Block): (r: (seq<Block>, nat))
    requires h.start <= m.addr
    ensures |r.0| <= 1
  {
    if m.End() != h.end then ([m], h.end)
    else
      var e := TrimmedEnd(h.start, m.addr);
      (if e == m.addr then [] else [m.(size := e - m.addr)], e)
  }

  function Freed(h: Heap, k: nat): Heap
    requires k < |h.blocks| && h.start <= Merged(h.blocks, k).addr
  {
    var l, r := LeftMerge(h.blocks, k), RightMerge(h.blocks, k);
    var (rest, e) := Trimmed(h, Merged(h.blocks, k));
    h.(end := e,
       blocks := Splice(h.blocks, k - l, l + 1 + r, rest),
       holes := InsertAll(HolesLeft(h, k), rest))
  }

  lemma TrimmedFits(h: Heap, m: Block)
    requires h.start % PAGE == 0 && h.end % PAGE == 0 && h.start + HEAP_MIN <= h.end
    requires h.start <= m.addr && m.End() == h.end && TAGS <= m.size
    ensures var e := Trimmed(h, m).1; m.addr <= e <= h.end && e % PAGE == 0 && h.start + HEAP_MIN <= e
    ensures Tiles(Trimmed(h, m).0, m.addr, Trimmed(h, m).1)
  {
    var len := AlignUp(m.addr - h.start);
    assert len <= h.end - h.start;
  }

  /** Where a heap may end whose last block other than a hole ends at `from`: on a page, no shorter
      than the least heap, and with nothing or room for tags behind `from`. */
  predicate MayEnd(start: nat, from: nat, e: nat) {
    e % 0x1000 == 0 && start + 0x70000 <= e && (e == from || from + TAGS <= e)
  }

  /** Trimming goes down to the least end there can be. */
  lemma TrimmedLeast(start: nat, addr: nat, e: nat)
    requires start % PAGE == 0 && start <= addr
    ensures MayEnd(start, addr, TrimmedEnd(start, addr))
    ensures MayEnd(start, addr, e) ==> TrimmedEnd(start, addr) <= e
  {
  }

  lemma MergedTiles(h: Heap, k: nat)
    requires Sound(h) && k < |h.blocks|
    ensures var l, r := LeftMerge(h.blocks, k), RightMerge(h.blocks, k);
      && Merged(h.blocks, k).End() == h.blocks[k + r].End()
      && h.start <= Merged(h.blocks, k).addr && Merged(h.blocks, k).End() <= h.end
      && TAGS <= Merged(h.blocks, k).size
      && (Merged(h.blocks, k).End() == h.end ==> k + r == |h.blocks| - 1)
  {
    var bs, l, r := h.blocks, LeftMerge(h.blocks, k), RightMerge(h.blocks, k);
    TilesBounds(bs, h.start, h.end);
    if l == 1 { TilesOrdered(bs, h.start, h.end, k - 1, k); }
    if r == 1 { TilesOrdered(bs, h.start, h.end, k, k + 1); }
    if k + r < |bs| - 1 {
      TilesOrdered(bs, h.start, h.end, k + r, |bs| - 1);
    }
  }

  /** The freed tiling when the merged hole ends the heap. */
  lemma FreedLastTiles(h: Heap, k: nat)
    requires Sound(h) && k < |h.blocks| && h.start <= Merged(h.blocks, k).addr
    requires Merged(h.blocks, k).End() == h.end && TAGS <= Merged(h.blocks, k).size
    requires k + RightMerge(h.blocks, k) == |h.blocks| - 1
    ensures var f := Freed(h, k);
      && f.end % PAGE == 0 && f.start + HEAP_MIN <= f.end <= h.end
      && Tiles(f.blocks, f.start, f.end)
  {
    hide BagOfHoles, Tiles, Sorted, Coalesced, TrimmedEnd, HolesLeft, InsertAll;
    var bs, l := h.blocks, LeftMerge(h.blocks, k);
    var m := Merged(bs, k);
    var rest, e := Trimmed(h, m).0, Trimmed(h, m).1;
    TrimmedFits(h, m);
    TilesSplit(bs, h.start, h.end, k - l);
    TilesAppend(bs[..k - l], rest, h.start, m.addr, e);
    assert Freed(h, k).blocks == bs[..k - l] + rest;
  }

  lemma FreedTiles(h: Heap, k: nat)
    requires Sound(h) && k < |h.blocks| && !h.blocks[k].hole
    ensures h.start <= Merged(h.blocks, k).addr
    ensures var f := Freed(h, k);
      && f.end % PAGE == 0 && f.start + HEAP_MIN <= f.end <= h.end
      && Tiles(f.blocks, f.start, f.end)
  {
    hide BagOfHoles, Tiles, Sorted, Coalesced, TrimmedEnd, HolesLeft, InsertAll, Splice;
    MergedTiles(h, k);
    var bs, l, r := h.blocks, LeftMerge(h.blocks, k), RightMerge(h.blocks, k);
    var m := Merged(bs, k);
    if m.End() == h.end {
      FreedLastTiles(h, k);
    } else {
      TilesOne(m);
      SpliceTiles(bs, h.start, h.end, k - l, l + 1 + r, [m]);
    }
  }

  lemma FreedCoalesced(h: Heap, k: nat)
    requires Sound(h) && k < |h.blocks| && !h.blocks[k].hole
    requires h.start <= Merged(h.blocks, k).addr
    ensures Coalesced(Freed(h, k).blocks)
  {
    hide BagOfHoles, Tiles, Sorted, TrimmedEnd;
    MergedTiles(h, k);
    var bs, l, r := h.blocks, LeftMerge(h.blocks, k), RightMerge(h.blocks, k);
    var rest := Trimmed(h, Merged(bs, k)).0;
    SpliceCoalesced(bs, k - l, l + 1 + r, rest);
  }

  /** A block with the neighbours that merge with it. */
  lemma MergedSlice(bs: seq<Block>, k: nat, l: nat, r: nat)
    requires l <= 1 && r <= 1 && l <= k && k + r < |bs|
    ensures bs[k - l..k + 1 + r] == bs[k - l..k] + [bs[k]] + bs[k + 1..k + 1 + r]
    ensures bs[k - l..k] == if l == 1 then [bs[k - 1]] else []
    ensures bs[k + 1..k + 1 + r] == if r == 1 then [bs[k + 1]] else []
  {
    SliceParts(bs, k - l, k, k + 1, k + 1 + r);
    SliceOfOne(bs, k);
    if l == 1 { SliceOfOne(bs, k - 1); }
    if r == 1 { SliceOfOne(bs, k + 1); }
  }

  /** The holes among the merged blocks. */
  lemma MergedBag(bs: seq<Block>, k: nat)
    requires k < |bs| && !bs[k].hole
    ensures var l, r := LeftMerge(bs, k), RightMerge(bs, k);
      BagOfHoles(bs[k - l..k + 1 + r]) ==
        (if l == 1 then multiset{bs[k - 1]} else multiset{}) + (if r == 1 then multiset{bs[k + 1]} else multiset{})
  {
    hide BagOfHoles;
    var l, r := LeftMerge(bs, k), RightMerge(bs, k);
    var left := if l == 1 then [bs[k - 1]] else [];
    var right := if r == 1 then [bs[k + 1]] else [];
    MergedSlice(bs, k, l, r);
    BagOfThree(left, [bs[k]], right);
    BagOfFew(left);
    BagOfFew(right);
    BagOfOne(bs[k]);
  }

  lemma WithoutBag(holes: seq<Block>, b: Block)
    requires Sorted(holes, Smaller) && b in multiset(holes)
    ensures b in holes
    ensures Sorted(Without(holes, b), Smaller)
    ensures multiset(Without(holes, b)) + multiset{b} == multiset(holes)
  {
    RemovedSorted(holes, Position(holes, b), Smaller);
  }

  lemma HolesLeftBag(h: Heap, k: nat)
    requires Sound(h) && k < |h.blocks| && !h.blocks[k].hole
    ensures Sorted(HolesLeft(h, k), Smaller)
    ensures var l, r := LeftMerge(h.blocks, k), RightMerge(h.blocks, k);
      multiset(HolesLeft(h, k)) + BagOfHoles(h.blocks[k - l..k + 1 + r]) == multiset(h.holes)
  {
    hide BagOfHoles, Tiles, Coalesced, Sorted, Without;
    var bs, l, r := h.blocks, LeftMerge(h.blocks, k), RightMerge(h.blocks, k);
    BagMembers(bs);
    MergedBag(bs, k);
    if l == 1 {
      assert bs[k - 1] in bs;
      WithoutBag(h.holes, bs[k - 1]);
      if r == 1 {
        assert bs[k + 1] in bs;
        assert bs[k - 1] != bs[k + 1] by {
          TilesOrdered(bs, h.start, h.end, k - 1, k + 1);
          TilesBounds(bs, h.start, h.end);
        }
        var hs := Without(h.holes, bs[k - 1]);
        assert bs[k + 1] in multiset(hs) by {
          assert multiset(h.holes)[bs[k + 1]] == (multiset(hs) + multiset{bs[k - 1]})[bs[k + 1]];
        }
        WithoutBag(hs, bs[k + 1]);
      }
    } else if r == 1 {
      assert bs[k + 1] in bs;
      WithoutBag(h.holes, bs[k + 1]);
    }
  }

  lemma FreedBag(h: Heap, k: nat)
    requires Sound(h) && k < |h.blocks| && !h.blocks[k].hole && h.start <= Merged(h.blocks, k).addr
    ensures var f := Freed(h, k);
      Sorted(f.holes, Smaller) && multiset(f.holes) == BagOfHoles(f.blocks)
  {
    hide BagOfHoles, Tiles, Coalesced, Sorted, HolesLeft, InsertAll, Splice, LeftMerge, RightMerge, TrimmedEnd;
    var bs, l, r := h.blocks, LeftMerge(h.blocks, k), RightMerge(h.blocks, k);
    var f, rest := Freed(h, k), Trimmed(h, Merged(bs, k)).0;
    HolesLeftBag(h, k);
    InsertedHoles(HolesLeft(h, k), rest);
    SpliceBag(bs, k - l, l + 1 + r, rest);
    BagOfFew(rest);
    var lost := BagOfHoles(bs[k - l..k + 1 + r]);
    assert f.holes == InsertAll(HolesLeft(h, k), rest) && f.blocks == Splice(bs, k - l, l + 1 + r, rest);
    assert multiset(f.holes) + lost == multiset(h.holes) + multiset(rest);
    SameBag(multiset(h.holes), multiset(f.holes), BagOfHoles(bs), BagOfHoles(f.blocks), lost, multiset(rest));
  }

  lemma FreedSound(h: Heap, k: nat)
    requires Sound(h) && k < |h.blocks| && !h.blocks[k].hole
    ensures h.start <= Merged(h.blocks, k).addr
    ensures Sound(Freed(h, k))
  {
    FreedTiles(h, k);
    FreedCoalesced(h, k);
    FreedBag(h, k);
  }
}
