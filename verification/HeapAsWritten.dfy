/**
 Where the heap code departs from what it is meant to do: for each place the exact
 inputs on which the code as written agrees with the corrected model.
 */
module HeapAsWritten {
  import opened Machine
  import opened Bytes
  import opened OrderedArrays
  import opened HeapModel
  import opened KernelHeaps

  // ---------------------------------------------------------------- make_space

  /** How often the scan of `make_space` meets an address above all earlier ones. */
  function Records(c: seq<nat>, value: nat): (n: nat)
    ensures n <= |c|
  {
    if c == [] then 0
    else if value < c[0] then 1 + Records(c[1..], c[0])
    else Records(c[1..], value)
  }

  ghost predicate AscendingFrom(c: seq<nat>, value: nat) {
    c == [] || (value < c[0] && AscendingFrom(c[1..], c[0]))
  }

  /** The loop of `make_space` as written. */
  method LastHeaderAsWritten(c: seq<nat>) returns (index: int)
    ensures index == Records(c, 0) - 1
  {
    index := -1;
    var value := 0;
    var i := 0;
    while i < |c|
      invariant i <= |c|
      invariant Records(c, 0) == index + 1 + Records(c[i..], value)
    {
      if value < c[i] {
        value := c[i];
        index := index + 1;
      }
      i := i + 1;
    }
  }

  lemma {:induction false} RecordsAscending(c: seq<nat>, value: nat)
    ensures Records(c, value) == |c| <==> AscendingFrom(c, value)
  {
    if c != [] {
      RecordsAscending(c[1..], c[0]);
    }
  }

  lemma {:induction false} RecordsStop(c: seq<nat>, value: nat, m: nat)
    requires m < |c| && value < c[m]
    requires forall j :: 0 <= j < |c| && j != m ==> c[j] < c[m]
    ensures Records(c, value) == Records(c[..m + 1], value)
  {
    if m == 0 {
      NoRecords(c[1..], c[0]);
      assert c[..1][1..] == [];
    } else {
      assert c[..m + 1][1..] == c[1..][..m];
      RecordsStop(c[1..], if value < c[0] then c[0] else value, m - 1);
    }
  }

  lemma {:induction false} NoRecords(c: seq<nat>, value: nat)
    requires forall j :: 0 <= j < |c| ==> c[j] <= value
    ensures Records(c, value) == 0
  {
    if c != [] {
      NoRecords(c[1..], value);
    }
  }

  /** The index found is that of the highest hole exactly when the index ascends by address
      up to it; sorted by size, it need not. */
  lemma LastHeaderExact(c: seq<nat>, m: nat)
    requires m < |c| && 0 < c[m] && forall j :: 0 <= j < |c| && j != m ==> c[j] < c[m]
    ensures Records(c, 0) - 1 == m <==> AscendingFrom(c[..m + 1], 0)
  {
    RecordsStop(c, 0, m);
    RecordsAscending(c[..m + 1], 0);
  }

  /** The addresses in the index, as the scan sees them. */
  function Addresses(holes: seq<Block>): (c: seq<nat>)
    ensures |c| == |holes| && forall j :: 0 <= j < |c| ==> c[j] == holes[j].addr
  {
    seq(|holes|, (j: nat) requires j < |holes| => holes[j].addr)
  }

  /** A sound heap with three holes for which the scan finds the lowest instead of the last. */
  function Misled(): Heap {
    var low, mid, last := Block(4096, 24, true), Block(4140, 20, true), Block(4180, HEAP_MIN - 84, true);
    Heap(4096, 4096 + HEAP_MIN, 4096 + HEAP_MIN,
         [low, Block(4120, 20, false), mid, Block(4160, 20, false), last], [mid, low, last])
  }

  lemma OneMore(b: Block, bs: seq<Block>, hi: nat)
    requires TAGS <= b.size && Tiles(bs, b.End(), hi)
    ensures Tiles([b] + bs, b.addr, hi)
    ensures BagOfHoles([b] + bs) == (if b.hole then multiset{b} else multiset{}) + BagOfHoles(bs)
  {
    assert ([b] + bs)[1..] == bs;
  }

  lemma MisledBlocks()
    ensures Tiles(Misled().blocks, 4096, 4096 + HEAP_MIN)
    ensures BagOfHoles(Misled().blocks) == multiset(Misled().holes)
  {
    hide Tiles, BagOfHoles;
    var h := Misled();
    var bs, hi := h.blocks, h.end;
    TilesOne(bs[4]);
    BagOfOne(bs[4]);
    OneMore(bs[3], [bs[4]], hi);
    OneMore(bs[2], [bs[3]] + [bs[4]], hi);
    OneMore(bs[1], [bs[2]] + ([bs[3]] + [bs[4]]), hi);
    OneMore(bs[0], [bs[1]] + ([bs[2]] + ([bs[3]] + [bs[4]])), hi);
    assert bs == [bs[0]] + ([bs[1]] + ([bs[2]] + ([bs[3]] + [bs[4]])));
    assert h.holes == [bs[2], bs[0], bs[4]];
  }

  lemma LastHeaderWrong()
    ensures Sound(Misled())
    ensures var i := Records(Addresses(Misled().holes), 0) - 1;
      i == 1 && forall b :: b in Misled().holes ==> Misled().holes[i].addr <= b.addr
  {
    hide Tiles, BagOfHoles;
    MisledBlocks();
    var c := Addresses(Misled().holes);
    assert c == [4140, 4096, 4180] && c[1..] == [4096, 4180] && c[1..][1..] == [4180] && c[1..][1..][1..] == [];
  }

  /** `make_space` as written, once the heap ends at `e`: the hole that the scan finds is lengthened
      in place, wherever it ends. */
  function MakeSpaceAsWritten(h: Heap, e: nat): Heap
    requires h.end <= e && forall b :: b in h.holes ==> b in h.blocks
  {
    var i := Records(Addresses(h.holes), 0) - 1;
    if i >= 0 then
      var b := h.holes[i];
      var more := b.(size := b.size + (e - h.end));
      h.(end := e, blocks := h.blocks[Position(h.blocks, b) := more], holes := h.holes[i := more])
    else
      var more := Block(h.end, e - h.end, true);
      h.(end := e, blocks := h.blocks + [more], holes := h.holes + [more])
  }

  lemma {:induction false} SomeRecord(c: seq<nat>, value: nat)
    requires exists j :: 0 <= j < |c| && value < c[j]
    ensures Records(c, value) > 0
  {
    if c[0] <= value {
      SomeRecord(c[1..], value);
    }
  }

  /** Lengthening block `k` of a tiling alone keeps a tiling exactly at its end. */
  lemma LengthenedTiles(bs: seq<Block>, lo: nat, hi: nat, k: nat, more: nat)
    requires Tiles(bs, lo, hi) && k < |bs| && 0 < more
    ensures Tiles(bs[k := bs[k].(size := bs[k].size + more)], lo, hi + more) <==> k == |bs| - 1
  {
    hide Tiles;
    var b := bs[k].(size := bs[k].size + more);
    var r := bs[k := b];
    if k == |bs| - 1 {
      TilesBounds(bs, lo, hi);
      TilesSplit(bs, lo, hi, k);
      TilesOne(b);
      TilesAppend(bs[..k], [b], lo, b.addr, hi + more);
      assert r == bs[..k] + [b];
    } else {
      TilesOrdered(bs, lo, hi, k, k + 1);
      if Tiles(r, lo, hi + more) {
        TilesOrdered(r, lo, hi + more, k, k + 1);
      }
    }
  }

  /** `make_space` as written keeps the heap tiled exactly when there is no hole at all, or the last
      block is a hole and the index ascends by address up to it. */
  lemma MakeSpaceExact(h: Heap, e: nat)
    requires Sound(h) && 0 < h.start && h.end + TAGS <= e
    ensures forall b :: b in h.holes ==> b in h.blocks
    ensures Tiles(MakeSpaceAsWritten(h, e).blocks, h.start, e) <==>
      h.holes == [] ||
      (EndsInHole(h.blocks) && h.blocks[|h.blocks| - 1] in h.holes
       && AscendingFrom(Addresses(h.holes)[..Position(h.holes, h.blocks[|h.blocks| - 1]) + 1], 0))
  {
    hide Tiles, BagOfHoles, Sorted, Coalesced, Records, AscendingFrom;
    HolesAreBlocks(h);
    var bs, n, c := h.blocks, |h.blocks|, Addresses(h.holes);
    if h.holes == [] {
      NoRecords(c, 0);
      TilesOne(Block(h.end, e - h.end, true));
      TilesAppend(bs, [Block(h.end, e - h.end, true)], h.start, h.end, e);
    } else {
      TilesBounds(bs, h.start, h.end);
      assert h.holes[0] in h.holes;
      SomeRecord(c, 0);
      var i := Records(c, 0) - 1;
      var b := h.holes[i];
      assert b in h.holes;
      LengthenedTiles(bs, h.start, h.end, Position(bs, b), e - h.end);
      FoundLast(h, i);
    }
  }

  /** The hole at place `i` of the index is the last block exactly when the scan that yields `i` was right. */
  lemma FoundLast(h: Heap, i: nat)
    requires Sound(h) && 0 < h.start && i < |h.holes| && i == Records(Addresses(h.holes), 0) - 1
    requires h.holes[i] in h.blocks
    ensures Position(h.blocks, h.holes[i]) == |h.blocks| - 1 <==>
      (EndsInHole(h.blocks) && h.blocks[|h.blocks| - 1] in h.holes
       && AscendingFrom(Addresses(h.holes)[..Position(h.holes, h.blocks[|h.blocks| - 1]) + 1], 0))
  {
    hide Tiles, BagOfHoles, Sorted, Coalesced, Records, AscendingFrom;
    HolesAreBlocks(h);
    var bs, n, c := h.blocks, |h.blocks|, Addresses(h.holes);
    assert h.holes[i] in h.holes;
    var last := bs[n - 1];
    if last.hole {
      assert last in bs;
      var m := Position(h.holes, last);
      HighestHole(h, m);
      LastHeaderExact(c, m);
      if h.holes[i] == last {
        HolePosition(h, i);
      }
      PositionUnique(bs, h.start, h.end, n - 1, n - 1);
    }
  }

  lemma HighestHole(h: Heap, m: nat)
    requires Sound(h) && 0 < h.start && m < |h.holes| && h.holes[m] == h.blocks[|h.blocks| - 1]
    ensures 0 < h.holes[m].addr && forall j :: 0 <= j < |h.holes| && j != m ==> h.holes[j].addr < h.holes[m].addr
  {
    hide Tiles, BagOfHoles, Sorted, Coalesced;
    HolesAreBlocks(h);
    TilesBounds(h.blocks, h.start, h.end);
    assert h.holes[m] in h.holes;
    forall j | 0 <= j < |h.holes| && j != m
      ensures h.holes[j].addr < h.holes[m].addr
    {
      HolesOnce(h, if j < m then j else m, if j < m then m else j);
      assert h.holes[j] in h.holes;
      TilesOrdered(h.blocks, h.start, h.end, Position(h.blocks, h.holes[j]), |h.blocks| - 1);
    }
  }

  // ---------------------------------------------------------------- the order of the index

  /** A hole that changes its size without leaving its place in the index keeps the index sorted
      exactly when its neighbours there allow the new size. */
  lemma ResizedSorted(holes: seq<Block>, i: nat, b: Block)
    requires Sorted(holes, Smaller) && i < |holes|
    ensures Sorted(holes[i := b], Smaller) <==>
      (0 < i ==> holes[i - 1].size <= b.size) && (i + 1 < |holes| ==> b.size <= holes[i + 1].size)
  {
    var r := holes[i := b];
    if (0 < i ==> holes[i - 1].size <= b.size) && (i + 1 < |holes| ==> b.size <= holes[i + 1].size) {
      forall x, y | 0 <= x < y < |r|
        ensures !Smaller(r[y], r[x])
      {
        assert y == i && x < i - 1 ==> !Smaller(holes[i - 1], holes[x]);
        assert x == i && i + 1 < y ==> !Smaller(holes[y], holes[i + 1]);
      }
    }
    assert Sorted(r, Smaller) && 0 < i ==> !Smaller(r[i], r[i - 1]);
    assert Sorted(r, Smaller) && i + 1 < |r| ==> !Smaller(r[i + 1], r[i]);
  }

  // ---------------------------------------------------------------- unify_left

  /** The header that `unify_left` as written takes from the 12 bytes before `header`. */
  function LeftProbeAsWritten(m: seq<Byte>, base: nat, header: nat): Option<nat>
    requires base + HEADER <= header && header - base <= |m|
  {
    if Read32(m, header - HEADER - base) == MAGIC then Some(Read32(m, header - HEADER + 4 - base)) else None
  }

  /** Behind any tagged block the probe as written yields the magic number as an address, which
      no header of the kernel heap has; so no left neighbour is ever found. */
  lemma LeftProbeMisses(m: seq<Byte>, base: nat, left: Block)
    requires Tagged(m, base, left) && 0xC0000000 <= base
    ensures LeftProbeAsWritten(m, base, left.End()) in {None, Some(MAGIC)}
    ensures LeftProbeAsWritten(m, base, left.End()) != Some(left.addr)
  {
  }

  // ---------------------------------------------------------------- probes

  /** The left probe of `free`, 12 bytes as written or 8 as meant, leaves the heap exactly for its
      first block, and the right probe, of the header behind, exactly for its last. */
  lemma ProbesExact(h: Heap, k: nat)
    requires Sound(h) && k < |h.blocks|
    ensures h.blocks[k].addr < h.start + HEADER <==> k == 0
    ensures h.blocks[k].addr < h.start + FOOTER <==> k == 0
    ensures h.end < h.blocks[k].End() + HEADER <==> k == |h.blocks| - 1
  {
    hide Tiles, BagOfHoles, Sorted, Coalesced;
    Neighbours(h.blocks, h.start, h.end, k);
    TilesBounds(h.blocks, h.start, h.end);
    if 0 < k { assert h.blocks[k - 1] in h.blocks; }
    if k + 1 < |h.blocks| { assert h.blocks[k + 1] in h.blocks; }
  }

  // ---------------------------------------------------------------- footers

  /** `header->size = size` and `footer->header = header`. */
  function Resized(m: seq<Byte>, o: nat, size: nat): (r: seq<Byte>)
    requires o + HEADER <= |m| && size < U32
    ensures |r| == |m|
  {
    Write(m, o + 8, Encode32(size))
  }

  function Pointed(m: seq<Byte>, f: nat, header: nat): (r: seq<Byte>)
    requires f + FOOTER <= |m| && header < U32
    ensures |r| == |m|
  {
    Write(m, f + 4, Encode32(header))
  }

  lemma ResizedHeader(m: seq<Byte>, o: nat, size: nat, hole: bool, now: nat)
    requires HeaderAt(m, o, size, hole) && now < U32
    ensures HeaderAt(Resized(m, o, now), o, now, hole)
    ensures Agree(m, Resized(m, o, now), 0, o) && Agree(m, Resized(m, o, now), o + HEADER, |m|)
  {
    hide Read32, Encode32, Write;
    Read32Written(m, o + 8, now);
    Read32Same(m, Resized(m, o, now), o);
  }

  lemma PointedFooter(m: seq<Byte>, f: nat, header: nat, now: nat)
    requires FooterAt(m, f, header) && now < U32
    ensures FooterAt(Pointed(m, f, now), f, now)
    ensures Agree(m, Pointed(m, f, now), 0, f) && Agree(m, Pointed(m, f, now), f + FOOTER, |m|)
  {
    hide Read32, Encode32, Write;
    Read32Written(m, f + 4, now);
    Read32Same(m, Pointed(m, f, now), f);
  }

  lemma HeaderFrame(m: seq<Byte>, n: seq<Byte>, o: nat, size: nat, hole: bool)
    requires HeaderAt(m, o, size, hole) && Agree(m, n, o, o + HEADER)
    ensures HeaderAt(n, o, size, hole)
  {
    hide Read32;
    Read32Same(m, n, o);
    Read32Same(m, n, o + 8);
  }

  lemma FooterFrame(m: seq<Byte>, n: seq<Byte>, f: nat, header: nat)
    requires FooterAt(m, f, header) && Agree(m, n, f, f + FOOTER)
    ensures FooterAt(n, f, header)
  {
    hide Read32;
    Read32Same(m, n, f);
    Read32Same(m, n, f + 4);
  }

  ghost predicate Freeable(h: Heap, m: seq<Byte>, k: nat) {
    && Sound(h) && |m| == h.end - h.start && AllTagged(m, h.start, h.blocks)
    && k < |h.blocks| && !h.blocks[k].hole
  }

  /** The hole that block `k` makes with a hole on its left. */
  function LeftPart(bs: seq<Block>, k: nat): Block
    requires k < |bs|
  {
    if LeftMerge(bs, k) == 1 then Joined(bs, k - 1) else bs[k].(hole := true)
  }

  lemma LeftPartPlace(h: Heap, m: seq<Byte>, k: nat)
    requires Freeable(h, m, k)
    ensures var bs, p := h.blocks, LeftPart(h.blocks, k);
      && h.start <= p.addr <= bs[k].addr && p.End() == bs[k].End() && TAGS <= bs[k].size <= p.size
      && p.End() - h.start <= |m| && p.hole && p.addr == Merged(bs, k).addr && Merged(bs, k).End() <= h.end < U32
      && Merged(bs, k).size == p.size + (if RightMerge(bs, k) == 1 then bs[k + 1].size else 0)
      && (RightMerge(bs, k) == 1 ==> bs[k].End() == bs[k + 1].addr)
      && (LeftMerge(bs, k) == 1 ==> bs[k - 1].End() == bs[k].addr && TAGS <= bs[k - 1].size)
  {
    hide Tiles, BagOfHoles, Sorted, Coalesced;
    MergedTiles(h, k);
    Neighbours(h.blocks, h.start, h.end, k);
    TilesBounds(h.blocks, h.start, h.end);
    assert h.blocks[k] in h.blocks && (0 < k ==> h.blocks[k - 1] in h.blocks);
  }

  /** The tags after `unify_left`, with its probe as meant: footer and size of the left part. */
  ghost function LeftTags(h: Heap, m: seq<Byte>, k: nat): (r: seq<Byte>)
    requires Freeable(h, m, k)
    ensures |r| == |m|
  {
    LeftPartPlace(h, m, k);
    var p, b := LeftPart(h.blocks, k), h.blocks[k];
    var marked := Write(m, b.addr + 4 - h.start, [1]);
    if LeftMerge(h.blocks, k) == 1
    then Resized(Pointed(marked, b.End() - FOOTER - h.start, p.addr), p.addr - h.start, p.size)
    else marked
  }

  /** The tags after `unify_right`, which as written sets the size alone. */
  ghost function MergeAsWritten(h: Heap, m: seq<Byte>, k: nat): (r: seq<Byte>)
    requires Freeable(h, m, k)
    ensures |r| == |m|
  {
    LeftPartPlace(h, m, k);
    var left, whole := LeftTags(h, m, k), Merged(h.blocks, k);
    if RightMerge(h.blocks, k) == 1 then Resized(left, whole.addr - h.start, whole.size) else left
  }

  lemma MarkedTags(m: seq<Byte>, base: nat, b: Block)
    requires Tagged(m, base, b)
    ensures var r := Write(m, b.addr + 4 - base, [1]);
      && Tagged(r, base, b.(hole := true))
      && Agree(m, r, 0, b.addr - base) && Agree(m, r, b.addr - base + HEADER, |m|)
  {
    hide Read32;
    var o := b.addr - base;
    var r := Write(m, o + 4, [1]);
    assert r[o + 4] == r[o + 4..o + 4 + 1][0];
    Read32Same(m, r, o);
    Read32Same(m, r, o + 8);
    Read32Same(m, r, b.End() - FOOTER - base);
    Read32Same(m, r, b.End() - FOOTER - base + 4);
  }

  lemma LeftTagged(h: Heap, m: seq<Byte>, k: nat)
    requires Freeable(h, m, k)
    ensures Tagged(LeftTags(h, m, k), h.start, LeftPart(h.blocks, k))
    ensures Agree(m, LeftTags(h, m, k), h.blocks[k].End() - h.start, |m|)
  {
    hide Sound, Read32, HeaderAt, FooterAt, Resized, Pointed, Merged, RightMerge;
    LeftPartPlace(h, m, k);
    var bs, p, b := h.blocks, LeftPart(h.blocks, k), h.blocks[k];
    assert b in bs && (0 < k ==> bs[k - 1] in bs);
    MarkedTags(m, h.start, b);
    if LeftMerge(bs, k) == 1 {
      var a := bs[k - 1];
      var o, f := a.addr - h.start, b.End() - FOOTER - h.start;
      var m1 := Write(m, b.addr + 4 - h.start, [1]);
      HeaderFrame(m, m1, o, a.size, true);
      PointedFooter(m1, f, b.addr, a.addr);
      var m2 := Pointed(m1, f, a.addr);
      HeaderFrame(m1, m2, o, a.size, true);
      ResizedHeader(m2, o, a.size, true, p.size);
      FooterFrame(m2, Resized(m2, o, p.size), f, a.addr);
    }
  }

  /** The header of the merged hole is always right; its footer points to it exactly without a right merge. */
  lemma MergedTags(h: Heap, m: seq<Byte>, k: nat)
    requires Freeable(h, m, k)
    ensures h.start <= Merged(h.blocks, k).addr
    ensures var r, b := MergeAsWritten(h, m, k), Merged(h.blocks, k);
      && HeaderAt(r, b.addr - h.start, b.size, true)
      && (Tagged(r, h.start, b) <==> RightMerge(h.blocks, k) == 0)
  {
    hide Sound, Read32, HeaderAt, Resized, LeftPart, LeftTags;
    LeftPartPlace(h, m, k);
    LeftTagged(h, m, k);
    MergedIs(h.blocks, k);
    var bs, p, left := h.blocks, LeftPart(h.blocks, k), LeftTags(h, m, k);
    if RightMerge(bs, k) == 1 {
      var c, b := bs[k + 1], Merged(bs, k);
      assert c in bs;
      var o, f := p.addr - h.start, c.End() - FOOTER - h.start;
      ResizedHeader(left, o, p.size, true, b.size);
      FooterFrame(m, left, f, c.addr);
      FooterFrame(left, Resized(left, o, b.size), f, c.addr);
    }
  }

  lemma MergedIs(bs: seq<Block>, k: nat)
    requires k < |bs|
    ensures Merged(bs, k).hole &&
      Merged(bs, k).size == LeftPart(bs, k).size + (if RightMerge(bs, k) == 1 then bs[k + 1].size else 0)
    ensures RightMerge(bs, k) == 0 ==> Merged(bs, k).size == LeftPart(bs, k).size
  {
  }

  /** `make_footer`. */
  function MadeFooter(m: seq<Byte>, f: nat, header: nat): (r: seq<Byte>)
    requires f + FOOTER <= |m| && header < U32
    ensures |r| == |m|
  {
    Write(Write(m, f + 4, Encode32(header)), f, Encode32(MAGIC))
  }

  lemma MadeFooterAt(m: seq<Byte>, f: nat, header: nat)
    requires f + FOOTER <= |m| && header < U32
    ensures FooterAt(MadeFooter(m, f, header), f, header)
    ensures Agree(m, MadeFooter(m, f, header), 0, f)
  {
    hide Read32, Encode32, Write;
    var m1 := Write(m, f + 4, Encode32(header));
    Read32Written(m, f + 4, header);
    Read32Written(m1, f, MAGIC);
    Read32Same(m1, MadeFooter(m, f, header), f + 4);
  }

  /** The tags after `free` as written, with what is left of a trimmed hole resized and given a footer. */
  ghost function FreeAsWritten(h: Heap, m: seq<Byte>, k: nat): seq<Byte>
    requires Freeable(h, m, k)
  {
    LeftPartPlace(h, m, k);
    FreedSound(h, k);
    MergedTiles(h, k);
    var b, merged := Merged(h.blocks, k), MergeAsWritten(h, m, k);
    if b.End() != h.end then merged
    else
      TrimmedFits(h, b);
      var (rest, e) := Trimmed(h, b);
      if rest == [] then merged[..e - h.start]
      else MadeFooter(Resized(merged[..e - h.start], b.addr - h.start, rest[0].size), e - FOOTER - h.start, b.addr)
  }

  /** `free` as written leaves the hole with both its tags exactly when it does not merge on the
      right or the hole ends the heap. */
  lemma StaleFooterExact(h: Heap, m: seq<Byte>, k: nat)
    requires Freeable(h, m, k) && h.start <= Merged(h.blocks, k).addr && Trimmed(h, Merged(h.blocks, k)).0 != []
    ensures Tagged(FreeAsWritten(h, m, k), h.start, Trimmed(h, Merged(h.blocks, k)).0[0]) <==>
      RightMerge(h.blocks, k) == 0 || Merged(h.blocks, k).End() == h.end
  {
    hide Tiles, BagOfHoles, Sorted, Coalesced, AllTagged, Read32, HeaderAt, FooterAt, Resized, MadeFooter;
    hide MergeAsWritten, Merged, TrimmedEnd;
    LeftPartPlace(h, m, k);
    MergedTags(h, m, k);
    MergedIs(h.blocks, k);
    var b := Merged(h.blocks, k);
    if b.End() == h.end {
      LastKept(h, m, k);
    }
  }

  lemma LastKept(h: Heap, m: seq<Byte>, k: nat)
    requires Freeable(h, m, k) && h.start <= Merged(h.blocks, k).addr && Trimmed(h, Merged(h.blocks, k)).0 != []
    requires Merged(h.blocks, k).End() == h.end
    ensures Tagged(FreeAsWritten(h, m, k), h.start, Trimmed(h, Merged(h.blocks, k)).0[0])
  {
    hide BagOfHoles, Sorted, Coalesced, AllTagged, Read32, HeaderAt, FooterAt, Resized, MadeFooter;
    hide MergeAsWritten, Merged, TrimmedEnd;
    LeftPartPlace(h, m, k);
    MergedTags(h, m, k);
    MergedTiles(h, k);
    MergedIs(h.blocks, k);
    var b, merged := Merged(h.blocks, k), MergeAsWritten(h, m, k);
    TrimmedFits(h, b);
    var (rest, e) := Trimmed(h, b);
    var cut := merged[..e - h.start];
    HeaderFrame(merged, cut, b.addr - h.start, b.size, true);
    ResizedHeader(cut, b.addr - h.start, b.size, true, rest[0].size);
    var sized := Resized(cut, b.addr - h.start, rest[0].size);
    MadeFooterAt(sized, e - FOOTER - h.start, b.addr);
    HeaderFrame(sized, MadeFooter(sized, e - FOOTER - h.start, b.addr), b.addr - h.start, rest[0].size, true);
  }

  /** `make_header`. */
  function MadeHeader(m: seq<Byte>, o: nat, size: nat): (r: seq<Byte>)
    requires o + HEADER <= |m| && size < U32
    ensures |r| == |m|
  {
    Write(Write(Write(m, o + 8, Encode32(size)), o, Encode32(MAGIC)), o + 4, [1])
  }

  lemma MadeHeaderAt(m: seq<Byte>, o: nat, size: nat)
    requires o + HEADER <= |m| && size < U32
    ensures HeaderAt(MadeHeader(m, o, size), o, size, true)
    ensures Agree(m, MadeHeader(m, o, size), o + HEADER, |m|)
  {
    hide Read32, Encode32;
    var m1 := Write(m, o + 8, Encode32(size));
    var m2 := Write(m1, o, Encode32(MAGIC));
    var m3 := Write(m2, o + 4, [1]);
    assert m3[o + 4] == m3[o + 4..o + 4 + 1][0];
    Read32Written(m, o + 8, size);
    Read32Written(m1, o, MAGIC);
    Read32Same(m1, m3, o + 8);
    Read32Same(m2, m3, o);
  }

  /** The tags of a new hole as `alloc` and `create_heap` write them: without a footer at the end of the heap. */
  function NewHoleAsWritten(m: seq<Byte>, base: nat, b: Block, end: nat): seq<Byte>
    requires base <= b.addr && TAGS <= b.size && b.End() - base <= |m| && b.End() < U32
  {
    var m1 := MadeHeader(m, b.addr - base, b.size);
    if b.End() < end then MadeFooter(m1, b.End() - FOOTER - base, b.addr) else m1
  }

  /** A new hole gets both its tags exactly when it does not end the heap or its footer was there
      already, which it was not if it is split off a tagged hole. */
  lemma NewHoleExact(m: seq<Byte>, base: nat, b: Block, end: nat)
    requires base <= b.addr && TAGS <= b.size && b.End() - base <= |m| && b.End() < U32 && b.hole
    ensures Tagged(NewHoleAsWritten(m, base, b, end), base, b) <==>
      b.End() < end || FooterAt(m, b.End() - FOOTER - base, b.addr)
    ensures forall a: Block :: Tagged(m, base, a) && a.End() == b.End() && a.addr != b.addr ==>
      !FooterAt(m, b.End() - FOOTER - base, b.addr)
  {
    hide Read32, HeaderAt, MadeHeader, MadeFooter;
    var o, f := b.addr - base, b.End() - FOOTER - base;
    MadeHeaderAt(m, o, b.size);
    var m1 := MadeHeader(m, o, b.size);
    MadeFooterAt(m1, f, b.addr);
    HeaderFrame(m1, MadeFooter(m1, f, b.addr), o, b.size, true);
    Read32Same(m, m1, f);
    Read32Same(m, m1, f + 4);
  }

  // ---------------------------------------------------------------- contract

  function TrimmedEndAsWritten(start: nat, addr: nat): nat
    requires start <= addr
  {
    var len := AlignUp(addr - start);
    start + if len < HEAP_MIN then HEAP_MIN else len
  }

  /** Trimming as written leaves a hole without room for its tags exactly for these addresses. */
  lemma TrimExact(start: nat, addr: nat)
    requires start <= addr
    ensures var off := addr - start;
      TrimmedEndAsWritten(start, addr) != TrimmedEnd(start, addr) <==> HEAP_MIN - TAGS < off && PAGE - TAGS < off % PAGE
  {
    var off := addr - start;
    if off <= HEAP_MIN {
      assert AlignUp(off) <= HEAP_MIN;
    }
  }

  /** As written, `free` finds that trimming removes the merged hole. */
  predicate GoneAsWritten(h: Heap, k: nat)
    requires k < |h.blocks| && h.start <= Merged(h.blocks, k).addr
  {
    var b := Merged(h.blocks, k);
    b.End() == h.end && b.size <= h.end - TrimmedEndAsWritten(h.start, b.addr)
  }

  /** As written, `free` inserts the header it started with, also when trimming removed it. The
      index so gets a header that is gone exactly when there is no left merge and the hole ends
      the heap and starts on a page from the least length on; it lies right at the new end. */
  lemma DeadHeaderExact(h: Heap, k: nat)
    requires Sound(h) && k < |h.blocks| && h.start <= Merged(h.blocks, k).addr
    ensures var b := Merged(h.blocks, k);
      && (LeftMerge(h.blocks, k) == 0 && GoneAsWritten(h, k) <==>
            LeftMerge(h.blocks, k) == 0 && b.End() == h.end && b.addr % PAGE == 0 && h.start + HEAP_MIN <= b.addr)
      && (GoneAsWritten(h, k) ==> b.addr == TrimmedEndAsWritten(h.start, b.addr))
  {
    hide Tiles, BagOfHoles, Sorted, Coalesced, LeftMerge, Merged;
  }

  /** The loop of `contract` as written: it frees every page behind the new end but the first. */
  method FreedPagesAsWritten(oldSize: nat, newSize: nat) returns (freed: set<nat>)
    requires oldSize % PAGE == 0 && newSize % PAGE == 0 && PAGE <= newSize <= oldSize
    ensures freed == PagesBetween(newSize, oldSize) - {newSize}
  {
    freed := {};
    var i := oldSize - PAGE;
    while i > newSize
      invariant i % PAGE == 0 && newSize <= i + PAGE <= oldSize
      invariant newSize < oldSize ==> newSize <= i
      invariant freed == PagesBetween(i + PAGE, oldSize) - {newSize}
    {
      freed := freed + {i};
      i := i - PAGE;
    }
  }

  /** The offsets of the pages from `lo` up to `hi`. */
  function PagesBetween(lo: nat, hi: nat): set<nat> {
    set i | lo <= i < hi && i % PAGE == 0
  }

  // ---------------------------------------------------------------- aligned requests

  /** The skip of `find_smallest_hole` for an aligned request. */
  function OffsetAsWritten(addr: nat): (off: nat)
    ensures off < PAGE && (addr + off + HEADER) % PAGE == 0
  {
    if (addr + HEADER) % PAGE == 0 then 0 else PAGE - (addr + HEADER) % PAGE
  }

  /** The comparison of `find_smallest_hole` in unsigned 32 bits. */
  predicate FitsAsWritten(b: Block, total: nat) {
    total <= (b.size - OffsetAsWritten(b.addr)) % U32
  }

  /** It is the comparison that is meant exactly when the skip is no larger than the hole, or the
      wrapped difference is still too small. */
  lemma FitsExact(b: Block, total: nat)
    requires b.size < U32 && total < U32
    ensures var off := OffsetAsWritten(b.addr);
      (FitsAsWritten(b, total) <==> off + total <= b.size) <==> off <= b.size || U32 + b.size - off < total
  {
    var off := OffsetAsWritten(b.addr);
    if b.size < off {
      assert (b.size - off) % U32 == U32 + b.size - off;
    }
  }

  /** Where `alloc` as written puts the header of an aligned block. */
  function AlignedPosAsWritten(addr: nat): int {
    if (addr + HEADER) % PAGE == 0 then addr else addr + PAGE - addr % PAGE - HEADER
  }

  lemma AlignedPosExact(addr: nat)
    ensures AlignedPosAsWritten(addr) == addr + Gap(addr, true) <==>
      addr % PAGE <= PAGE - HEADER - TAGS || addr % PAGE == PAGE - HEADER
  {
    var q := addr % PAGE;
    assert (addr + HEADER) % PAGE == if q + HEADER < PAGE then q + HEADER else q + HEADER - PAGE;
  }

  /** The size that `alloc` as written gives the block: the small remainder is absorbed before the gap is known. */
  function TakenAsWritten(b: Block, total: nat): int {
    if b.size - total < TAGS then b.size else total
  }

  lemma TakenExact(b: Block, total: nat, align: bool)
    requires Fits(b, total, align)
    ensures TakenAsWritten(b, total) == Carved(b, total, align).size <==>
      Gap(b.addr, align) == 0 || !(0 < b.size - Gap(b.addr, align) - total < TAGS)
  {
  }

  // ---------------------------------------------------------------- the request size

  /** `total_block_size` in 32 bits. */
  function TotalAsWritten(size: nat): nat {
    (size + TAGS) % U32
  }

  lemma TotalExact(size: nat)
    requires size < U32
    ensures TotalAsWritten(size) >= size + TAGS <==> size < U32 - TAGS
    ensures U32 - TAGS <= size ==> TotalAsWritten(size) < TAGS
  {
  }
}
