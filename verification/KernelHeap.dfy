/** The heap over the bytes of its memory: src/mem/alloc.c and src/mem/heap.c with the corrections of the README. */
module KernelHeaps {
  import opened Machine
  import opened Bytes
  import opened OrderedArrays
  import opened HeapModel
  import opened HeapRuns
  import opened HeapTraces

  const MAGIC: nat := 0xBEEFACED
  const INDEX_SIZE: nat := 0x20000

  // ---------------------------------------------------------------- tags in memory

  ghost predicate HeaderAt(m: seq<Byte>, o: int, size: nat, hole: bool) {
    && 0 <= o && o + HEADER <= |m|
    && Read32(m, o) == MAGIC && m[o + 4] == (if hole then 1 else 0) && Read32(m, o + 8) == size
  }

  ghost predicate FooterAt(m: seq<Byte>, o: int, header: nat) {
    && 0 <= o && o + FOOTER <= |m|
    && Read32(m, o) == MAGIC && Read32(m, o + 4) == header
  }

  /** Block `b` of a heap that starts at `base` has both its tags in memory. */
  ghost predicate Tagged(m: seq<Byte>, base: nat, b: Block) {
    && base <= b.addr && TAGS <= b.size && b.End() - base <= |m|
    && HeaderAt(m, b.addr - base, b.size, b.hole)
    && FooterAt(m, b.End() - FOOTER - base, b.addr)
  }

  ghost predicate AllTagged(m: seq<Byte>, base: nat, bs: seq<Block>) {
    forall b :: b in bs ==> Tagged(m, base, b)
  }

  /** `header->size` for a header at address `a`. */
  function SizeAt(m: seq<Byte>, base: nat, a: nat): nat {
    if base <= a && a - base + HEADER <= |m| then Read32(m, a - base + 8) else 0
  }

  /** `header_comparer` over memory `m`. */
  function BySize(m: seq<Byte>, base: nat): Comparer<nat> {
    (a: nat, b: nat) => SizeAt(m, base, a) < SizeAt(m, base, b)
  }

  lemma TaggedFrame(m: seq<Byte>, n: seq<Byte>, base: nat, b: Block)
    requires Tagged(m, base, b) && Agree(m, n, b.addr - base, b.End() - base)
    ensures Tagged(n, base, b)
  {
    hide Read32;
    var o, f := b.addr - base, b.End() - FOOTER - base;
    Read32Same(m, n, o);
    Read32Same(m, n, o + 8);
    Read32Same(m, n, f);
    Read32Same(m, n, f + 4);
  }

  /** Writes inside blocks `k..k+n` that leave `ps` tagged there leave the spliced tiling tagged. */
  lemma Retagged(m: seq<Byte>, m': seq<Byte>, base: nat, hi: nat, bs: seq<Block>, k: nat, n: nat, ps: seq<Block>)
    requires Tiles(bs, base, hi) && AllTagged(m, base, bs) && 0 < n && k + n <= |bs|
    requires Agree(m, m', 0, bs[k].addr - base) && Agree(m, m', bs[k + n - 1].End() - base, hi - base)
    requires AllTagged(m', base, ps)
    ensures AllTagged(m', base, Splice(bs, k, n, ps))
  {
    hide Tiles, Tagged;
    TilesBounds(bs, base, hi);
    forall b | b in Splice(bs, k, n, ps)
      ensures Tagged(m', base, b)
    {
      if b !in ps {
        var i :| 0 <= i < |bs| && !(k <= i < k + n) && bs[i] == b;
        if i < k { TilesOrdered(bs, base, hi, i, k); } else { TilesOrdered(bs, base, hi, k + n - 1, i); }
        TaggedFrame(m, m', base, b);
      }
    }
  }

  lemma AllTaggedFrame(m: seq<Byte>, m': seq<Byte>, base: nat, hi: nat, bs: seq<Block>)
    requires Tiles(bs, base, hi) && AllTagged(m, base, bs) && Agree(m, m', 0, hi - base)
    ensures AllTagged(m', base, bs)
  {
    hide Tiles, Tagged;
    TilesBounds(bs, base, hi);
    forall b | b in bs
      ensures Tagged(m', base, b)
    {
      TaggedFrame(m, m', base, b);
    }
  }

  /** Every block of `live` holds the same bytes, tags included, in both memories. */
  ghost predicate Untouched(m: seq<Byte>, m': seq<Byte>, base: nat, live: set<Block>) {
    forall b :: b in live ==> Agree(m, m', b.addr - base, b.End() - base)
  }

  // ---------------------------------------------------------------- the index in memory

  /** The index array holds the header addresses of `holes`, in order. */
  ghost predicate Indexes(c: seq<nat>, holes: seq<Block>) {
    |c| == |holes| && forall j :: 0 <= j < |c| ==> c[j] == holes[j].addr
  }

  ghost predicate Sized(m: seq<Byte>, base: nat, holes: seq<Block>) {
    forall b :: b in holes ==> SizeAt(m, base, b.addr) == b.size
  }

  lemma InsertIndexes(m: seq<Byte>, base: nat, c: seq<nat>, holes: seq<Block>, b: Block)
    requires Indexes(c, holes) && Sized(m, base, holes) && SizeAt(m, base, b.addr) == b.size
    ensures Indexes(Inserted(c, b.addr, BySize(m, base)), Inserted(holes, b, Smaller))
  {
    hide SizeAt, InsertPos;
    var p := InsertPos(holes, b, Smaller);
    assert forall j :: 0 <= j < |c| ==> holes[j] in holes && c[j] == holes[j].addr;
    InsertPosUnique(c, b.addr, BySize(m, base), p);
  }

  lemma RemoveIndexes(c: seq<nat>, holes: seq<Block>, i: nat)
    requires Indexes(c, holes) && i < |c|
    ensures Indexes(Removed(c, i), Removed(holes, i))
  {
  }

  lemma TaggedSized(m: seq<Byte>, base: nat, bs: seq<Block>, holes: seq<Block>)
    requires AllTagged(m, base, bs) && forall b :: b in holes ==> b in bs
    ensures Sized(m, base, holes)
  {
  }

  lemma IndexCount(c: seq<nat>, holes: seq<Block>)
    requires Indexes(c, holes)
    ensures |c| == |holes|
  {
  }

  /** How a call ends: the heap would pass its maximum, or the index has no cell for a new hole, so
      that the source stores behind it; `Refused` is for calls that nobody makes. */
  datatype Ending = Completed | OutOfMemory | IndexFull | Refused

  /** How `alloc` ends with an index of so many cells. */
  ghost function AllocEnding(h: Heap, size: nat, align: bool, cells: nat): (e: Ending)
    requires Sound(h)
    ensures e != Refused
    decreases h.max - h.end
  {
    var total := size + TAGS;
    var i := FirstFit(h.holes, total, align);
    if i < |h.holes| then
      PlaceSound(h, i, total, align);
      if cells < |Place(h, i, total, align).holes| then IndexFull else Completed
    else if GrownEnd(h, total).None? then OutOfMemory
    else
      GrownSound(h, total);
      var g := Grown(h, GrownEnd(h, total).value);
      if cells < |g.holes| then IndexFull else AllocEnding(g, size, align, cells)
  }

  /** The same in terms of what the code looks at. */
  lemma EndingStep(g: Heap, size: nat, align: bool, cells: nat)
    requires Sound(g) && |g.holes| <= cells
    ensures var total := size + TAGS;
      var i := FirstFit(g.holes, total, align);
      if i < |g.holes| then
        AllocEnding(g, size, align, cells) ==
          if cells < |g.holes| - 1 + |Front(g.holes[i], total, align)| + |Back(g.holes[i], total, align)|
          then IndexFull else Completed
      else if GrownEnd(g, total).None? then AllocEnding(g, size, align, cells) == OutOfMemory
      else
        && (EndsInHole(g.blocks) ==> g.blocks[|g.blocks| - 1] in g.holes)
        && g.end <= GrownEnd(g, total).value && Sound(Grown(g, GrownEnd(g, total).value))
        && AllocEnding(g, size, align, cells) ==
             if !EndsInHole(g.blocks) && cells <= |g.holes| then IndexFull
             else AllocEnding(Grown(g, GrownEnd(g, total).value), size, align, cells)
  {
    hide Tiles, BagOfHoles, Coalesced, Sorted, Grown, Gap, Front, Back;
    var total := size + TAGS;
    var i := FirstFit(g.holes, total, align);
    if i < |g.holes| {
      PlaceSound(g, i, total, align);
    } else if GrownEnd(g, total).Some? {
      GrownSound(g, total);
      GrownFacts(g, total);
    }
  }

  // ---------------------------------------------------------------- the heap object

  class KernelHeap {
    const start: nat
    const max: nat
    const index: OrderedArray
    var end: nat
    /** The bytes from `start` up to `end`. */
    var mem: seq<Byte>
    /** The blocks that the tags describe, and the holes in index order. */
    ghost var h: Heap

    ghost predicate Valid()
      reads this, index, index.cells
    {
      && 0 < start && Sound(h) && h.start == start && h.end == end && h.max == max
      && |mem| == end - start && AllTagged(mem, start, h.blocks)
      && index.Valid() && Indexes(index.Contents(), h.holes)
    }

    /** `create_heap`: the index takes the front of the area, the rest is one hole; the frames
        behind it hold `ram`. */
    constructor (from: nat, end: nat, max: nat, ram: seq<Byte>)
      requires from % PAGE == 0 && end % PAGE == 0
      requires from + 4 * INDEX_SIZE + HEAP_MIN <= end <= max < U32
      requires |ram| == end - from - 4 * INDEX_SIZE
      ensures Valid() && fresh(index) && fresh(index.cells) && index.maxSize == INDEX_SIZE && index.size == 1
      ensures h == Created(from + 4 * INDEX_SIZE, end, max)
    {
      hide SizeAt, HeaderAt, FooterAt;
      this.start := from + 4 * INDEX_SIZE;
      this.max := max;
      this.end := end;
      mem := ram;
      var hole := Block(from + 4 * INDEX_SIZE, end - from - 4 * INDEX_SIZE, true);
      h := Created(hole.addr, end, max);
      index := new OrderedArray(INDEX_SIZE);
      new;
      CreatedSound(start, end, max);
      Tag(start, end - start, true);
      TaggedSized(mem, start, [hole], [hole]);
      InsertHole(start, [], hole);
    }

    // -------------------------------------------------------------- tag helpers

    method MakeHeader(loc: nat, size: nat, hole: bool)
      requires start <= loc && loc - start + HEADER <= |mem| && size < U32
      modifies this`mem
      ensures |mem| == |old(mem)| && HeaderAt(mem, loc - start, size, hole)
      ensures Agree(old(mem), mem, 0, loc - start) && Agree(old(mem), mem, loc - start + HEADER, |mem|)
    {
      hide Read32, Encode32;
      var o := loc - start;
      var m1 := Write(mem, o + 8, Encode32(size));
      var m2 := Write(m1, o, Encode32(MAGIC));
      var m3 := Write(m2, o + 4, [if hole then 1 else 0]);
      assert m3[o + 4] == m3[o + 4..o + 4 + 1][0];
      Read32Written(mem, o + 8, size);
      Read32Written(m1, o, MAGIC);
      Read32Same(m1, m3, o + 8);
      Read32Same(m2, m3, o);
      mem := m3;
    }

    method MakeFooter(loc: nat, header: nat)
      requires start <= loc && loc - start + FOOTER <= |mem| && header < U32
      modifies this`mem
      ensures |mem| == |old(mem)| && FooterAt(mem, loc - start, header)
      ensures Agree(old(mem), mem, 0, loc - start) && Agree(old(mem), mem, loc - start + FOOTER, |mem|)
    {
      hide Read32, Encode32;
      var o := loc - start;
      var m1 := Write(mem, o + 4, Encode32(header));
      var m2 := Write(m1, o, Encode32(MAGIC));
      Read32Written(mem, o + 4, header);
      Read32Written(m1, o, MAGIC);
      Read32Same(m1, m2, o + 4);
      mem := m2;
    }

    /** Header and footer of one block; the payload between them is untouched. */
    method Tag(addr: nat, size: nat, hole: bool)
      requires start <= addr && TAGS <= size && addr + size - start <= |mem| && addr + size < U32
      modifies this`mem
      ensures |mem| == |old(mem)| && Tagged(mem, start, Block(addr, size, hole))
      ensures Agree(old(mem), mem, 0, addr - start) && Agree(old(mem), mem, addr + size - start, |mem|)
      ensures Agree(old(mem), mem, addr - start + HEADER, addr + size - start - FOOTER)
    {
      hide Read32;
      MakeHeader(addr, size, hole);
      ghost var m := mem;
      MakeFooter(addr + size - FOOTER, addr);
      Read32Same(m, mem, addr - start);
      Read32Same(m, mem, addr - start + 8);
    }

    // -------------------------------------------------------------- index helpers

    method InsertHole(header: nat, ghost holes: seq<Block>, ghost b: Block)
      requires index.Valid() && index.size < index.maxSize && Indexes(index.Contents(), holes)
      requires Sized(mem, start, holes) && SizeAt(mem, start, header) == b.size && header == b.addr
      modifies index, index.cells
      ensures index.Valid() && index.size == old(index.size) + 1
      ensures Indexes(index.Contents(), Inserted(holes, b, Smaller))
    {
      InsertIndexes(mem, start, index.Contents(), holes, b);
      index.Insert(header, BySize(mem, start));
    }

    method FindHeaderIndex(header: nat, ghost holes: seq<Block>, ghost b: Block) returns (i: nat)
      requires index.Valid() && Indexes(index.Contents(), holes)
      requires b in holes && b.addr == header && forall c :: c in holes && c.addr == header ==> c == b
      ensures i == Position(holes, b) && i < index.size
    {
      i := 0;
      ghost var p := Position(holes, b);
      while i < index.size && index.cells[i] != header
        invariant i <= p
      {
        assert holes[i] != b;
        PositionFirst(holes, b, i);
        i := i + 1;
      }
      assert holes[i] in holes && index.Contents()[i] == header;
      PositionFirst(holes, b, i);
    }

    method FindSmallestHole(total: nat, align: bool) returns (i: int)
      requires Valid()
      ensures var k := FirstFit(h.holes, total, align); i == if k < |h.holes| then k else -1
    {
      hide Sound, FirstFit, SizeAt;
      HolesAreBlocks(h);
      TaggedSized(mem, start, h.blocks, h.holes);
      var j := 0;
      while j < index.size
        invariant j <= index.size
        invariant forall q :: 0 <= q < j ==> !Fits(h.holes[q], total, align)
      {
        var header := index.Lookup(j);
        assert h.holes[j] in h.holes;
        if Gap(header, align) + total <= SizeAt(mem, start, header) {
          return j;
        }
        j := j + 1;
      }
      return -1;
    }

    // -------------------------------------------------------------- growing

    /** `expand`: map pages up to the new length unless that passes `max`. */
    method Expand(length: nat, page: nat -> Byte) returns (ok: bool)
      requires start % PAGE == 0 && end % PAGE == 0 && start <= end && |mem| == end - start < length
      modifies this`mem, this`end
      ensures ok == (start + AlignUp(length) <= max)
      ensures if ok then end == start + AlignUp(length) && |mem| == end - start else end == old(end) && mem == old(mem)
      ensures Agree(old(mem), mem, 0, |old(mem)|)
    {
      var goal := AlignUp(length);
      if max < start + goal {
        return false;
      }
      while |mem| < goal
        invariant |old(mem)| <= |mem| <= goal && |mem| % PAGE == 0
        invariant Agree(old(mem), mem, 0, |old(mem)|)
        decreases goal - |mem|
      {
        var at := start + |mem|;
        mem := mem + seq(PAGE, (i: nat) => page(at + i));
      }
      end := start + goal;
      return true;
    }

    /** The position in the index of the hole with the highest address. */
    method LastHole() returns (i: int)
      requires index.Valid() && Indexes(index.Contents(), h.holes)
      requires forall b :: b in h.holes ==> 0 < b.addr
      ensures -1 <= i < |h.holes| && (i == -1 <==> h.holes == [])
      ensures i >= 0 ==> forall b :: b in h.holes ==> b.addr <= h.holes[i].addr
    {
      i := -1;
      var value, j := 0, 0;
      while j < index.size
        invariant j <= index.size && -1 <= i < j && (i == -1 <==> j == 0)
        invariant value == if i >= 0 then h.holes[i].addr else 0
        invariant forall q :: 0 <= q < j ==> h.holes[q].addr <= value
      {
        var header := index.Lookup(j);
        assert h.holes[j] in h.holes;
        if value < header {
          value, i := header, j;
        }
        j := j + 1;
      }
    }

    /** The position in the index of a hole that ends at `oldEnd`, the end of the tiling; -1 if there is none. */
    method FinalHole(oldEnd: nat) returns (i: int)
      requires Sound(h) && h.start == start && h.end == oldEnd && AllTagged(mem, start, h.blocks)
      requires index.Valid() && Indexes(index.Contents(), h.holes) && 0 < start
      ensures -1 <= i < |h.holes| && (i >= 0 <==> EndsInHole(h.blocks))
      ensures i >= 0 ==> h.holes[i] == h.blocks[|h.blocks| - 1] && i == Position(h.holes, h.holes[i])
    {
      hide Tiles, Tagged, BagOfHoles, Coalesced, Sorted, SizeAt;
      HolesAreBlocks(h);
      TilesBounds(h.blocks, start, oldEnd);
      TaggedSized(mem, start, h.blocks, h.holes);
      assert EndsInHole(h.blocks) ==> h.blocks[|h.blocks| - 1] in h.holes;
      i := LastHole();
      if i >= 0 {
        assert h.holes[i] in h.holes;
        LastHoleIsLast(h, i);
        var header := index.Lookup(i);
        if header + SizeAt(mem, start, header) != oldEnd {
          i := -1;
        }
      }
    }

    /** Lengthen the final hole, number `i` of the index of `g`, up to the new end. */
    method LengthenHole(i: nat, oldEnd: nat, ghost g: Heap)
      requires Sound(g) && g.start == start && g.end == oldEnd <= end < U32 && |mem| == end - start
      requires AllTagged(mem, start, g.blocks) && index.Valid() && Indexes(index.Contents(), g.holes)
      requires i < |g.holes| && EndsInHole(g.blocks) && g.holes[i] == g.blocks[|g.blocks| - 1]
      modifies this`mem, index, index.cells
      ensures |mem| == end - start && index.Valid() && index.size == old(index.size)
      ensures var last := g.blocks[|g.blocks| - 1];
        && AllTagged(mem, start, Splice(g.blocks, |g.blocks| - 1, 1, [last.(size := last.size + (end - oldEnd))]))
        && Indexes(index.Contents(), Inserted(Removed(g.holes, i), last.(size := last.size + (end - oldEnd)), Smaller))
        && start <= last.addr && Agree(old(mem), mem, 0, last.addr - start)
    {
      hide Tiles, Tagged, BagOfHoles, Coalesced, Sorted, SizeAt, Inserted, Removed, Splice;
      ghost var n, m := |g.blocks|, mem;
      TilesBounds(g.blocks, start, oldEnd);
      TaggedSized(mem, start, g.blocks, [g.holes[i]]);
      var header := index.Lookup(i);
      var size := SizeAt(mem, start, header) + (end - oldEnd);
      ghost var more := Block(header, size, true);
      RemoveIndexes(index.Contents(), g.holes, i);
      index.Remove(i);
      Tag(header, size, true);
      Retagged(m, mem, start, oldEnd, g.blocks, n - 1, 1, [more]);
      RemainIn(g, i, n - 1, [more]);
      TaggedSized(mem, start, Splice(g.blocks, n - 1, 1, [more]), Removed(g.holes, i));
      TaggedSized(mem, start, [more], [more]);
      InsertHole(header, Removed(g.holes, i), more);
    }

    /** Make the new space a hole of its own. */
    method AppendHole(oldEnd: nat, ghost g: Heap)
      requires Sound(g) && g.start == start && g.end == oldEnd && oldEnd + TAGS <= end < U32 && |mem| == end - start
      requires AllTagged(mem, start, g.blocks) && index.Valid() &&
        index.size < index.maxSize && Indexes(index.Contents(), g.holes)
      modifies this`mem, index, index.cells
      ensures |mem| == end - start && index.Valid() && index.size == old(index.size) + 1
      ensures var more := Block(oldEnd, end - oldEnd, true);
        && AllTagged(mem, start, g.blocks + [more])
        && Indexes(index.Contents(), Inserted(g.holes, more, Smaller))
      ensures Agree(old(mem), mem, 0, oldEnd - start)
    {
      hide Tiles, Tagged, BagOfHoles, Coalesced, Sorted, SizeAt, Inserted, Removed;
      ghost var more, m := Block(oldEnd, end - oldEnd, true), mem;
      HolesAreBlocks(g);
      TilesBounds(g.blocks, start, oldEnd);
      Tag(oldEnd, end - oldEnd, true);
      AllTaggedFrame(m, mem, start, oldEnd, g.blocks);
      TaggedSized(mem, start, g.blocks, g.holes);
      TaggedSized(mem, start, [more], [more]);
      InsertHole(oldEnd, g.holes, more);
    }

    /** `make_space`. */
    method MakeSpace(total: nat, page: nat -> Byte) returns (e: Ending)
      requires Valid() && TAGS <= total < U32
      modifies this, index, index.cells
      ensures e == if GrownEnd(old(h), total).None? then OutOfMemory
        else if !EndsInHole(old(h.blocks)) && index.maxSize <= |old(h.holes)| then IndexFull
        else Completed
      ensures e.OutOfMemory? ==> Valid()
      ensures EndsInHole(old(h.blocks)) ==> old(h.blocks)[|old(h.blocks)| - 1] in old(h.holes)
      ensures e.Completed? ==> Valid() && old(h.end) <= GrownEnd(old(h), total).value
      ensures e.Completed? ==> h == Grown(old(h), GrownEnd(old(h), total).value)
      ensures e.Completed? ==> Untouched(old(mem), mem, start, Live(old(h.blocks)))
    {
      hide Sound, Tagged, AllTagged, Sorted, SizeAt, Inserted, Removed, Splice, Live, Untouched, Agree, Indexes;
      ghost var g, m0 := h, mem;
      GrowthReady(g, total);
      IndexCount(index.Contents(), g.holes);
      var oldEnd := end;
      var ok := Expand(end - start + total, page);
      if !ok {
        return OutOfMemory;
      }
      ghost var m1 := mem;
      AllTaggedFrame(m0, m1, start, oldEnd, g.blocks);
      var i := FinalHole(oldEnd);
      if i >= 0 {
        LengthenHole(i, oldEnd, g);
      } else if index.size == index.maxSize {
        return IndexFull;
      } else {
        AppendHole(oldEnd, g);
      }
      h := Grown(g, end);
      GrownUntouched(g, m0, m1, mem);
      return Completed;
    }

    // -------------------------------------------------------------- alloc

    /** Write the tags of the blocks that replace hole `b`. */
    method TagPieces(b: Block, total: nat, align: bool)
      requires start <= b.addr && b.End() - start <= |mem| && b.End() < U32 && TAGS <= total && Fits(b, total, align)
      modifies this`mem
      ensures |mem| == |old(mem)| && AllTagged(mem, start, Pieces(b, total, align))
      ensures Agree(old(mem), mem, 0, b.addr - start) && Agree(old(mem), mem, b.End() - start, |mem|)
    {
      hide Tagged, Gap;
      var gap := Gap(b.addr, align);
      if gap > 0 {
        Tag(b.addr, gap, true);
      }
      var pos, room := b.addr + gap, b.size - gap;
      var taken := if room - total < TAGS then room else total;
      ghost var m1 := mem;
      Tag(pos, taken, false);
      ghost var m2 := mem;
      if taken < room {
        Tag(pos + taken, room - taken, true);
        TaggedFrame(m2, mem, start, Block(pos, taken, false));
      }
      if gap > 0 {
        TaggedFrame(m1, mem, start, Block(b.addr, gap, true));
      }
    }

    /** Replace hole number `i` of the index by the holes left over of it. */
    method Reindex(i: nat, b: Block, total: nat, align: bool, ghost holes: seq<Block>)
      requires index.Valid() && Indexes(index.Contents(), holes)
      requires i < |holes| && holes[i] == b && TAGS <= total && Fits(b, total, align)
      requires |holes| - 1 + |Front(b, total, align)| + |Back(b, total, align)| <= index.maxSize
      requires Sized(mem, start, Removed(holes, i)) && AllTagged(mem, start, Pieces(b, total, align))
      modifies index, index.cells
      ensures index.Valid()
      ensures Indexes(index.Contents(), InsertAll(InsertAll(Removed(holes,
        i), Front(b, total, align)), Back(b, total, align)))
    {
      hide Tagged, SizeAt, Inserted, Removed, Gap;
      RemoveIndexes(index.Contents(), holes, i);
      index.Remove(i);
      var front, back := Front(b, total, align), Back(b, total, align);
      TaggedSized(mem, start, Pieces(b, total, align), front);
      TaggedSized(mem, start, Pieces(b, total, align), back);
      if front != [] {
        InsertHole(front[0].addr, Removed(holes, i), front[0]);
      }
      InsertedMembers(Removed(holes, i), front);
      if back != [] {
        InsertHole(back[0].addr, InsertAll(Removed(holes, i), front), back[0]);
      }
    }

    /** Put the block of `alloc` into hole number `i` of the index. */
    method TakeHole(i: nat, total: nat, align: bool) returns (p: nat)
      requires Valid() && i < |h.holes| && TAGS <= total && Fits(h.holes[i], total, align)
      requires |h.holes| - 1 + |Front(h.holes[i], total, align)| + |Back(h.holes[i], total, align)| <= index.maxSize
      modifies this, index, index.cells
      ensures Valid() && old(h.holes)[i] in old(h.blocks)
      ensures h == Place(old(h), i, total, align) && p == Carved(old(h.holes)[i], total, align).Payload()
      ensures Untouched(old(mem), mem, start, Live(old(h.blocks)))
    {
      hide Tiles, Tagged, BagOfHoles, Coalesced, Sorted, SizeAt, InsertAll, Removed, Splice, Gap, Pieces;
      ghost var g, m := h, mem;
      PlaceSound(g, i, total, align);
      PlaceLive(g, i, total, align);
      HolesAreBlocks(g);
      ghost var k := Position(g.blocks, g.holes[i]);
      TilesBounds(g.blocks, start, end);
      TaggedSized(m, start, g.blocks, [g.holes[i]]);
      var hole := index.Lookup(i);
      var b := Block(hole, SizeAt(mem, start, hole), true);
      assert g.holes[i] in g.holes && b == g.holes[i];
      TagPieces(b, total, align);
      Retagged(m, mem, start, end, g.blocks, k, 1, Pieces(b, total, align));
      Remaining(g, i, k, m, mem);
      Reindex(i, b, total, align, g.holes);
      h := Place(g, i, total, align);
      PlaceFrame(g, i, total, align);
      p := hole + Gap(hole, align) + HEADER;
    }

    /** Whether carving a block out of hole number `i` leaves more holes than the index has cells for. */
    method Crowded(i: nat, total: nat, align: bool) returns (crowded: bool)
      requires Valid() && i < |h.holes| && TAGS <= total && Fits(h.holes[i], total, align)
      ensures crowded <==>
        index.maxSize < |h.holes| - 1 + |Front(h.holes[i], total, align)| + |Back(h.holes[i], total, align)|
    {
      hide Sound, Tagged, SizeAt, Front, Back;
      HolesAreBlocks(h);
      assert h.holes[i] in h.holes;
      TaggedSized(mem, start, h.blocks, [h.holes[i]]);
      var hole := index.Lookup(i);
      var b := Block(hole, SizeAt(mem, start, hole), true);
      assert b == h.holes[i];
      crowded := index.maxSize < index.size - 1 + |Front(b, total, align)| + |Back(b, total, align)|;
    }

    /** `alloc`: out of memory is the panic of `expand`, a full index the insertion behind its last cell. */
    method Alloc(size: nat, align: bool, page: nat -> Byte) returns (e: Ending, p: nat)
      requires Valid() && size + TAGS < U32
      modifies this, index, index.cells
      ensures e == AllocEnding(old(h), size, align, index.maxSize)
      ensures !e.IndexFull? ==> Valid()
      ensures e.Completed? ==> HeapModel.Alloc(old(h), size, align) == Some((h, p))
      ensures e.Completed? ==> Untouched(old(mem), mem, start, Live(old(h.blocks)))
      ensures e.OutOfMemory? ==> HeapModel.Alloc(old(h), size, align).None?
      decreases max - end
    {
      hide Sound, SizeAt, Splice, Gap, Place, Live, Untouched, AllTagged, Fits, HeapModel.Alloc, Grown, Carved;
      hide AllocEnding, Front, Back, Indexes;
      ghost var g, m := h, mem;
      var total := size + TAGS;
      p := 0;
      AllocStep(g, size, align);
      IndexCount(index.Contents(), g.holes);
      EndingStep(g, size, align, index.maxSize);
      var i := FindSmallestHole(total, align);
      if i == -1 {
        e := MakeSpace(total, page);
        if e.Completed? {
          GrownFacts(g, total);
          ghost var m1 := mem;
          e, p := Alloc(size, align, page);
          if e.Completed? {
            UntouchedTwice(m, m1, mem, start, Live(g.blocks));
          }
        }
      } else {
        var crowded := Crowded(i, total, align);
        if crowded {
          return IndexFull, 0;
        }
        p := TakeHole(i, total, align);
        e := Completed;
      }
    }

    // -------------------------------------------------------------- the owner of a block

    /** The owner of a live block writes inside its payload. */
    method Store(p: nat, offset: nat, data: seq<Byte>, ghost b: Block)
      requires Valid() && b in Live(h.blocks) && b.Payload() == p && offset + |data| <= b.size - TAGS
      modifies this`mem
      ensures Valid() && h == old(h)
      ensures mem == Write(old(mem), p - start + offset, data)
      ensures Untouched(old(mem), mem, start, Live(h.blocks) - {b})
    {
      hide Tiles, BagOfHoles, Coalesced, Sorted, Read32;
      ghost var m := mem;
      TilesBounds(h.blocks, start, end);
      mem := Write(mem, p - start + offset, data);
      ghost var k := Position(h.blocks, b);
      var o := b.addr - start;
      Read32Same(m, mem, o);
      Read32Same(m, mem, o + 8);
      Read32Same(m, mem, b.End() - FOOTER - start);
      Read32Same(m, mem, b.End() - FOOTER - start + 4);
      assert Tagged(mem, start, b);
      Retagged(m, mem, start, end, h.blocks, k, 1, [b]);
      assert Splice(h.blocks, k, 1, [b]) == h.blocks;
      forall c | c in Live(h.blocks) - {b}
        ensures Agree(m, mem, c.addr - start, c.End() - start)
      {
        LiveDisjoint(h, b, c);
      }
    }

    // -------------------------------------------------------------- free

    /** Clear the way for `free`: the block at position `k` of the tiling becomes a hole. */
    method MarkHole(header: nat, ghost bs: seq<Block>, ghost k: nat)
      requires Tiles(bs, start, end) && |mem| == end - start && AllTagged(mem, start, bs)
      requires k < |bs| && bs[k].addr == header
      modifies this`mem
      ensures |mem| == end - start && AllTagged(mem, start, Splice(bs, k, 1, [bs[k].(hole := true)]))
      ensures Agree(old(mem), mem, 0, header - start) && Agree(old(mem), mem, bs[k].End() - start, |mem|)
    {
      hide Tiles, Read32;
      ghost var b, m := bs[k], mem;
      TilesBounds(bs, start, end);
      assert b in bs;
      mem := Write(mem, header + 4 - start, [1]);
      assert mem[header + 4 - start] == mem[header + 4 - start..header + 4 - start + 1][0];
      var o := b.addr - start;
      Read32Same(m, mem, o);
      Read32Same(m, mem, o + 8);
      Read32Same(m, mem, b.End() - FOOTER - start);
      Read32Same(m, mem, b.End() - FOOTER - start + 4);
      assert Tagged(mem, start, b.(hole := true));
      Retagged(m, mem, start, end, bs, k, 1, [b.(hole := true)]);
    }

    /** Make one hole of two adjacent ones: the left header takes the size of both and the
        right footer points to it. */
    method JoinTags(left: nat, right: nat, ghost a: Block, ghost b: Block)
      requires Tagged(mem, start, a) && Tagged(mem, start, b) && a.hole &&
        b.hole && a.addr == left && b.addr == right == a.End()
      requires b.End() < U32
      modifies this`mem
      ensures |mem| == |old(mem)| && Tagged(mem, start, Block(left, a.size + b.size, true))
      ensures Agree(old(mem), mem, 0, left - start) && Agree(old(mem), mem, b.End() - start, |mem|)
    {
      hide Read32, Encode32, Write;
      var size := SizeAt(mem, start, left) + SizeAt(mem, start, right);
      var o, f := left - start, left + size - FOOTER - start;
      var m1 := Write(mem, o + 8, Encode32(size));
      var m2 := Write(m1, f + 4, Encode32(left));
      Read32Written(mem, o + 8, size);
      Read32Written(m1, f + 4, left);
      Read32Same(mem, m2, o);
      Read32Same(m1, m2, o + 8);
      Read32Same(mem, m2, f);
      mem := m2;
    }

    method DropHeader(header: nat, ghost holes: seq<Block>, ghost b: Block)
      requires index.Valid() && Indexes(index.Contents(), holes) && Listed(holes, b) && b.addr == header
      modifies index, index.cells
      ensures index.Valid() && Indexes(index.Contents(), Without(holes, b)) && index.size == old(index.size) - 1
    {
      var i := FindHeaderIndex(header, holes, b);
      RemoveIndexes(index.Contents(), holes, i);
      index.Remove(i);
    }

    /** `unify_left`: merge the hole at position `k` into a hole on its left. */
    method UnifyLeft(header: nat, ghost bs: seq<Block>, ghost k: nat, ghost holes: seq<Block>) returns (merged: nat)
      requires Tiles(bs, start, end) && |mem| == end - start && end < U32 && AllTagged(mem, start, bs)
      requires k < |bs| && bs[k].hole && bs[k].addr == header
      requires index.Valid() && Indexes(index.Contents(), holes)
      requires LeftMerge(bs, k) == 1 ==> Listed(holes, bs[k - 1])
      modifies this`mem, index, index.cells
      ensures index.Valid() &&
        Indexes(index.Contents(), if LeftMerge(bs, k) == 1 then Without(holes, bs[k - 1]) else holes)
      ensures index.size <= old(index.size)
      ensures |mem| == end - start && merged == bs[k - LeftMerge(bs, k)].addr
      ensures AllTagged(mem, start, MergedLeft(bs, k)) && Tiles(MergedLeft(bs, k), start, end)
      ensures start <= merged && Agree(old(mem), mem, 0, merged - start) &&
        Agree(old(mem), mem, bs[k].End() - start, |mem|)
    {
      hide Tiles, Read32, Splice, Without, Listed, Tagged, LeftMerge;
      TilesBounds(bs, start, end);
      Neighbours(bs, start, end, k);
      LeftMergeIs(bs, k);
      assert bs[k] in bs && (k > 0 ==> bs[k - 1] in bs);
      if k > 0 { TagsOf(mem, start, bs[k - 1]); }
      merged := header;
      // There is no footer to probe at the front of the heap.
      if header > start && Read32(mem, header - FOOTER - start) == MAGIC {
        var left := Read32(mem, header - FOOTER + 4 - start);
        if mem[left + 4 - start] == 1 {
          ghost var m := mem;
          DropHeader(left, holes, bs[k - 1]);
          JoinTags(left, header, bs[k - 1], bs[k]);
          Retagged(m, mem, start, end, bs, k - 1, 2, [Joined(bs, k - 1)]);
          JoinedTiles(bs, start, end, k - 1);
          merged := left;
        }
      }
    }

    /** `unify_right`: merge a hole on the right into the hole at position `k`. */
    method UnifyRight(header: nat, ghost bs: seq<Block>, ghost k: nat, ghost holes: seq<Block>)
      requires Tiles(bs, start, end) && |mem| == end - start && end < U32 && AllTagged(mem, start, bs)
      requires k < |bs| && bs[k].hole && bs[k].addr == header
      requires index.Valid() && Indexes(index.Contents(), holes)
      requires RightMerge(bs, k) == 1 ==> Listed(holes, bs[k + 1])
      modifies this`mem, index, index.cells
      ensures index.Valid() &&
        Indexes(index.Contents(), if RightMerge(bs, k) == 1 then Without(holes, bs[k + 1]) else holes)
      ensures index.size <= old(index.size)
      ensures |mem| == end - start && start <= header
      ensures AllTagged(mem, start, MergedRight(bs, k)) && Tiles(MergedRight(bs, k), start, end)
      ensures Agree(old(mem), mem, 0, header - start) &&
        Agree(old(mem), mem, bs[k + RightMerge(bs, k)].End() - start, |mem|)
    {
      hide Tiles, Read32, Splice, Without, Listed, Tagged, SizeAt;
      TilesBounds(bs, start, end);
      Neighbours(bs, start, end, k);
      assert bs[k] in bs && (k + 1 < |bs| ==> bs[k + 1] in bs);
      TagsOf(mem, start, bs[k]);
      if k + 1 < |bs| { TagsOf(mem, start, bs[k + 1]); }
      var right := header + SizeAt(mem, start, header);
      // There is no header to probe at the end of the heap.
      if right < end && Read32(mem, right - start) == MAGIC && mem[right + 4 - start] == 1 {
        ghost var m := mem;
        DropHeader(right, holes, bs[k + 1]);
        JoinTags(header, right, bs[k], bs[k + 1]);
        Retagged(m, mem, start, end, bs, k, 2, [Joined(bs, k)]);
        JoinedTiles(bs, start, end, k);
      }
    }

    /** `contract`: unmap the pages behind the trimmed end. */
    method Contract(header: nat)
      requires start <= header && |mem| == end - start && TrimmedEnd(start, header) <= end
      requires start % PAGE == 0 && end % PAGE == 0
      modifies this`mem, this`end
      ensures end == TrimmedEnd(start, header) && |mem| == end - start
      ensures MayEnd(start, header, end) && forall e: nat :: MayEnd(start, header, e) ==> end <= e
      ensures Agree(old(mem), mem, 0, |mem|)
    {
      forall e: nat
        ensures MayEnd(start, header, TrimmedEnd(start, header))
        ensures MayEnd(start, header, e) ==> TrimmedEnd(start, header) <= e
      {
        TrimmedLeast(start, header, e);
      }
      var length := AlignUp(header - start);
      if length < HEAP_MIN {
        length := HEAP_MIN;
      }
      if 0 < start + length - header < TAGS {
        length := length + PAGE;
      }
      while length < |mem|
        invariant length <= |mem| <= |old(mem)| && |mem| % PAGE == 0
        invariant Agree(old(mem), mem, 0, |mem|)
      {
        mem := mem[..|mem| - PAGE];
      }
      end := start + length;
    }

    /** The end of `free` on memory: a merged hole that ends the heap is trimmed or goes away. */
    method Trim(header: nat, ghost g: Heap, ghost bs: seq<Block>, ghost k: nat)
      requires Sound(g) && g.start == start && g.end == end && |mem| == end - start
      requires Tiles(bs, start, end) && AllTagged(mem, start, bs)
      requires k < |bs| && bs[k].hole && bs[k].addr == header && start <= header
      modifies this`mem, this`end
      ensures end == Trimmed(g, bs[k]).1 <= old(end) && |mem| == end - start
      ensures AllTagged(mem, start, Splice(bs, k, 1, Trimmed(g, bs[k]).0))
      ensures Agree(old(mem), mem, 0, header - start)
      ensures if bs[k].End() == g.end then k + 1 == |bs| else mem == old(mem) && end == old(end)
      ensures bs[k].End() == g.end ==> forall e: nat :: MayEnd(start, header, e) ==> end <= e
    {
      hide Tiles, Tagged, BagOfHoles, Coalesced, Sorted, TrimmedEnd, MayEnd;
      ghost var m, b := mem, bs[k];
      TilesBounds(bs, start, end);
      Neighbours(bs, start, end, k);
      TaggedSized(mem, start, bs, [b]);
      if header + SizeAt(mem, start, header) == end {
        TrimmedFits(g, b);
        Contract(header);
        TilesSplit(bs, start, g.end, k);
        assert bs == bs[..k] + [b];
        ghost var m1 := mem;
        if header < end {
          Tag(header, end - header, true);
        }
        AllTaggedFrame(m, mem, start, header, bs[..k]);
      } else {
        assert Splice(bs, k, 1, [b]) == bs;
      }
    }

    /** The middle of `free`: block `k` becomes a hole and takes in the holes beside it. */
    method Unify(header: nat, ghost k: nat) returns (merged: nat)
      requires Valid() && k < |h.blocks| && !h.blocks[k].hole && h.blocks[k].addr == header
      modifies this`mem, index, index.cells
      ensures |mem| == end - start && merged == Merged(h.blocks, k).addr && start <= merged
      ensures AllTagged(mem, start, Unified(h.blocks, k)) && Tiles(Unified(h.blocks, k), start, end)
      ensures index.Valid() && Indexes(index.Contents(), HolesLeft(h, k)) && index.size <= old(index.size)
      ensures Agree(old(mem), mem, 0, merged - start)
      ensures Agree(old(mem), mem, Merged(h.blocks, k).End() - start, |mem|)
    {
      hide Tiles, Tagged, AllTagged, BagOfHoles, Coalesced, Sorted, SizeAt, Without, Listed, Splice;
      hide MergedLeft, MergedRight, Merged, Unified, LeftMerge, RightMerge, Indexes;
      ghost var bs, m := h.blocks, mem;
      ghost var l := LeftMerge(bs, k);
      ghost var b1 := Splice(bs, k, 1, [bs[k].(hole := true)]);
      FreeListed(h, k);
      MarkedTiles(bs, start, end, k);
      MergedEnds(h, k);
      UnifySteps(bs, k);
      MarkHole(header, bs, k);
      merged := UnifyLeft(header, b1, k, h.holes);
      UnifyRight(merged, MergedLeft(b1, k), k - l, if l == 1 then Without(h.holes, bs[k - 1]) else h.holes);
    }

    /** `free` up to its index: block `k` is gone from memory, and its hole not yet in the index. */
    method FreeTags(p: nat, ghost k: nat) returns (merged: nat)
      requires Valid() && k < |h.blocks| && !h.blocks[k].hole && h.blocks[k].Payload() == p
      modifies this`mem, this`end, index, index.cells
      ensures h.start <= Merged(h.blocks, k).addr && merged == Merged(h.blocks, k).addr
      ensures end == Freed(h, k).end && |mem| == end - start && AllTagged(mem, start, Freed(h, k).blocks)
      ensures index.Valid() && Indexes(index.Contents(), HolesLeft(h, k))
      ensures Untouched(old(mem), mem, start, Live(Freed(h, k).blocks))
    {
      hide Tiles, Tagged, AllTagged, BagOfHoles, Coalesced, Sorted, SizeAt, TrimmedEnd, Live, Splice;
      hide HolesLeft, InsertAll;
      hide Unified, LeftMerge, RightMerge, Merged, Read32, Untouched, Indexes;
      ghost var m := mem;
      FreedSound(h, k);
      UnifiedAt(h.blocks, k);
      MergedTiles(h, k);
      // The sanity checks of the source hold here.
      SaneTags(h, k, mem);
      merged := Unify(p - HEADER, k);
      Trim(merged, h, Unified(h.blocks, k), k - LeftMerge(h.blocks, k));
      UnifiedTrimmed(h, k);
      FreedUntouched(h, k, m, mem);
    }

    /** `free`. The caller passes null or the payload of a live block. */
    method Free(p: nat) returns (e: Ending)
      requires Valid() && (p == 0 || LiveAt(h.blocks, p) < |h.blocks|)
      modifies this, index, index.cells
      ensures p == 0 ==> e.Completed? && Valid() && h == old(h) && mem == old(mem)
      ensures p != 0 ==> var k := LiveAt(old(h.blocks), p);
        && old(h.start) <= Merged(old(h.blocks), k).addr
        && e == (if index.maxSize < |Freed(old(h), k).holes| then IndexFull else Completed)
        && (e.Completed? ==> Valid() && h == Freed(old(h), k))
        && (e.Completed? && AtEnd(old(h.blocks), k) ==> forall x: nat :: MayEnd(start, CoreEnd(h), x) ==> end <= x)
        && (e.Completed? && !AtEnd(old(h.blocks), k) ==> end == old(end))
      ensures e.Completed? ==> Untouched(old(mem), mem, start, Live(h.blocks))
    {
      hide Tiles, Tagged, AllTagged, BagOfHoles, Coalesced, Sorted, SizeAt, TrimmedEnd, Live, LiveAt, Splice, HolesLeft;
      hide Unified, LeftMerge, RightMerge, Merged, Untouched, MayEnd, CoreEnd;
      ghost var g := h;
      if p == 0 {
        UntouchedSame(g, mem);
        return Completed;
      }
      ghost var k := LiveAt(g.blocks, p);
      FreedSound(g, k);
      FreedParts(g, k);
      FreedEnd(g, k);
      FreedFrame(g, k);
      var merged := FreeTags(p, k);
      ghost var rest := Trimmed(g, Merged(g.blocks, k)).0;
      TaggedSized(mem, start, Freed(g, k).blocks, HolesLeft(g, k));
      TaggedSized(mem, start, Freed(g, k).blocks, rest);
      MergedTiles(g, k);
      if merged < end {
        if index.size == index.maxSize {
          return IndexFull;
        }
        InsertHole(merged, HolesLeft(g, k), rest[0]);
      }
      h := Freed(g, k);
      return Completed;
    }

    // -------------------------------------------------------------- runs

    method ServeRequest(size: nat, align: bool, frame: nat -> Byte, ghost s: State) returns (e: Ending, reply: Reply)
      requires Valid() && size + TAGS < U32
      requires Owns(s) && s.heap == h && Holds(mem, start, s.store)
      modifies this, index, index.cells
      ensures e == AllocEnding(s.heap, size, align, index.maxSize)
      ensures !e.IndexFull? ==> Valid()
      ensures e.Completed? ==> After(s, Request(size, align), reply, h, mem)
    {
      hide Sound, AllTagged, Indexes, HeapModel.Alloc, AllocEnding, Untouched, Live, HoldsAt;
      ghost var m := mem;
      var p;
      e, p := Alloc(size, align, frame);
      reply := Silent;
      if e.Completed? {
        NewPointer(s, size, align);
        OwnedInside(h, p, size, mem);
        reply := Gave(p, mem[p - start..p - start + size]);
        HeldAfterRequest(s, size, align, reply, h, m, mem);
      }
    }

    method ServeRelease(p: nat, ghost s: State) returns (e: Ending)
      requires Valid() && (p == 0 || p in s.store)
      requires Owns(s) && s.heap == h && Holds(mem, start, s.store)
      modifies this, index, index.cells
      ensures e == ReleaseEnding(s, p, index.maxSize)
      ensures e.Completed? ==> Valid() && After(s, Release(p), Silent, h, mem)
    {
      hide Sound, AllTagged, Indexes, Untouched, Live, HoldsAt, Freed, Merged, LiveAt;
      ghost var m := mem;
      if p != 0 {
        OwnedAt(h, p, |s.store[p]|);
        ReleaseOwns(s, p);
      }
      e := Free(p);
      if p != 0 && e.Completed? {
        HeldAfterRelease(s, p, m, mem);
      }
    }

    method ServePut(p: nat, offset: nat, data: seq<Byte>, ghost s: State)
      requires Valid() && p in s.store && offset + |data| <= |s.store[p]|
      requires Owns(s) && s.heap == h && Holds(mem, start, s.store)
      modifies this`mem
      ensures Valid() && After(s, Put(p, offset, data), Silent, h, mem)
    {
      hide Sound, AllTagged, Indexes, Untouched, HoldsAt, LiveAt, Write;
      ghost var m := mem;
      OwnedAt(h, p, |s.store[p]|);
      ghost var b := h.blocks[LiveAt(h.blocks, p)];
      Store(p, offset, data, b);
      HeldAfterPut(m, start, p, s.store[p], offset, data);
      forall q | q in s.store && q != p
        ensures HoldsAt(mem, start, q, s.store[q])
      {
        OwnedOther(s, b, q);
        HeldOn(s, m, mem, Live(h.blocks) - {b}, q);
      }
    }

    method ServeGet(p: nat, offset: nat, count: nat, ghost s: State) returns (reply: Reply)
      requires Valid() && p in s.store && offset + count <= |s.store[p]|
      requires Owns(s) && s.heap == h && Holds(mem, start, s.store)
      ensures After(s, Get(p, offset, count), reply, h, mem)
    {
      hide Sound, AllTagged, Indexes;
      assert HoldsAt(mem, start, p, s.store[p]);
      SubSlice(mem, p - start, |s.store[p]|, offset, offset + count);
      return Read(mem[p - start + offset..p - start + offset + count]);
    }

    /** One call of an owner who keeps to what `sizes` says is theirs. */
    method Serve(call: Call, sizes: map<nat, nat>, frame: nat -> Byte, ghost s: State) returns (e: Ending, reply: Reply)
      requires Valid() && Owns(s) && s.heap == h && Holds(mem, start, s.store) && Sizes(sizes, s.store)
      modifies this, index, index.cells
      ensures e == CallEnding(s, call, index.maxSize)
      ensures !e.IndexFull? ==> Valid()
      ensures e.Completed? ==> After(s, call, reply, h, mem)
      ensures e.Refused? ==> h == old(h) && mem == old(mem)
    {
      hide Sound, AllTagged, Indexes, HeapModel.Alloc, AllocEnding, ReleaseEnding, Holds, After;
      e, reply := Refused, Silent;
      match call
      case Request(size, align) =>
        if size + TAGS < U32 {
          e, reply := ServeRequest(size, align, frame, s);
        }
      case Release(p) =>
        if p == 0 || p in sizes {
          e := ServeRelease(p, s);
        }
      case Put(p, offset, data) =>
        if p in sizes && offset + |data| <= sizes[p] {
          ServePut(p, offset, data, s);
          e := Completed;
        }
      case Get(p, offset, count) =>
        if p in sizes && offset + count <= sizes[p] {
          reply := ServeGet(p, offset, count, s);
          e := Completed;
        }
    }

    /** The owners' calls one after the other, up to the first that does not complete; `frames` is
        what new frames hold, call by call. What the owners see is a run of the allocator in which
        everyone has a memory of their own, and so it is in the end. */
    method Execute(calls: seq<Call>, frames: nat -> nat -> Byte) returns (replies: seq<Reply>, e: Ending)
      requires Valid()
      modifies this, index, index.cells
      ensures |replies| <= |calls| && (e.Completed? <==> |replies| == |calls|)
      ensures Run(State(old(h), map[]), calls[..|replies|], replies).Some?
      ensures var s := Run(State(old(h), map[]), calls[..|replies|], replies).value;
        && (!e.Completed? ==> e == CallEnding(s, calls[|replies|], index.maxSize))
        && (!e.IndexFull? ==> Valid())
        && (e.Completed? || e.Refused? ==> s.heap == h && Holds(mem, start, s.store))
    {
      hide Sound, Step, AllTagged, Indexes, Holds, CallEnding, Owned;
      var n, sizes: map<nat, nat> := 0, map[];
      ghost var s0 := State(h, map[]);
      ghost var s := s0;
      replies, e := [], Completed;
      NothingHeld(mem, start);
      while n < |calls|
        invariant n == |replies| <= |calls| && e.Completed? && Valid() && s.heap == h && Owns(s)
        invariant Run(s0, calls[..n], replies) == Some(s)
        invariant Sizes(sizes, s.store) && Holds(mem, start, s.store)
        decreases |calls| - n
      {
        var reply;
        e, reply := Serve(calls[n], sizes, frames(n), s);
        if !e.Completed? {
          return;
        }
        ghost var t := s;
        s := Step(s, calls[n], reply).value;
        StepOwns(t, calls[n], reply);
        NextSizes(t, sizes, calls[n], reply);
        RunNext(s0, calls, replies, reply);
        sizes := Tracked(sizes, calls[n], reply);
        replies := replies + [reply];
        n := n + 1;
      }
      assert calls[..n] == calls;
    }
  }

  /** `b` is in the index, and its address tells it from the other holes. */
  ghost predicate Listed(holes: seq<Block>, b: Block) {
    b in holes && forall c :: c in holes && c.addr == b.addr ==> c == b
  }

  /** The hole made of blocks `k` and `k + 1`. */
  function Joined(bs: seq<Block>, k: nat): Block
    requires k + 1 < |bs|
  {
    Block(bs[k].addr, bs[k].size + bs[k + 1].size, true)
  }

  function MergedLeft(bs: seq<Block>, k: nat): seq<Block>
    requires k < |bs|
  {
    if LeftMerge(bs, k) == 1 then Splice(bs, k - 1, 2, [Joined(bs, k - 1)]) else bs
  }

  function MergedRight(bs: seq<Block>, k: nat): seq<Block>
    requires k < |bs|
  {
    if RightMerge(bs, k) == 1 then Splice(bs, k, 2, [Joined(bs, k)]) else bs
  }

  /** The tags byte by byte: the magic number low byte first, the flag at offset 4, the size at
      offset 8; the footer in the last 8 bytes, and the payload 12 bytes up. */
  lemma TagBytes(m: seq<Byte>, base: nat, b: Block)
    requires Tagged(m, base, b)
    ensures var o, f := b.addr - base, b.addr + b.size - 8 - base;
      && m[o..o + 4] == [0xED, 0xAC, 0xEF, 0xBE] && m[o + 4] == (if b.hole then 1 else 0)
      && b.size == Word(m[o + 8], m[o + 9], m[o + 10], m[o + 11])
      && m[f..f + 4] == [0xED, 0xAC, 0xEF, 0xBE]
      && b.addr == Word(m[f + 4], m[f + 5], m[f + 6], m[f + 7])
      && b.Payload() == b.addr + 12
  {
    MagicBytes(m, b.addr - base);
    MagicBytes(m, b.End() - FOOTER - base);
  }

  lemma MagicBytes(m: seq<Byte>, at: nat)
    requires at + 4 <= |m| && Read32(m, at) == MAGIC
    ensures m[at..at + 4] == [0xED, 0xAC, 0xEF, 0xBE]
  {
    assert m[at] == 0xED && m[at + 1] == 0xAC && m[at + 2] == 0xEF && m[at + 3] == 0xBE;
  }

  /** What the probes of the merging code read in a tagged block. */
  lemma TagsOf(m: seq<Byte>, base: nat, b: Block)
    requires Tagged(m, base, b)
    ensures base <= b.addr && TAGS <= b.size && b.End() - base <= |m| && SizeAt(m, base, b.addr) == b.size
    ensures Read32(m, b.addr - base) == MAGIC && (m[b.addr + 4 - base] == 1 <==> b.hole)
    ensures Read32(m, b.End() - FOOTER - base) == MAGIC && Read32(m, b.End() - FOOTER + 4 - base) == b.addr
  {
  }

  lemma LeftMergeIs(bs: seq<Block>, k: nat)
    requires k < |bs|
    ensures LeftMerge(bs, k) == if 0 < k && bs[k - 1].hole then 1 else 0
  {
  }

  lemma Neighbours(bs: seq<Block>, lo: nat, hi: nat, k: nat)
    requires Tiles(bs, lo, hi) && k < |bs|
    ensures if k == 0 then bs[k].addr == lo else lo < bs[k].addr && bs[k - 1].End() == bs[k].addr
    ensures if k + 1 == |bs| then bs[k].End() == hi else bs[k].End() < hi && bs[k].End() == bs[k + 1].addr
  {
    hide Tiles;
    TilesBounds(bs, lo, hi);
    assert bs[k] in bs;
    if k > 0 {
      assert bs[k - 1] in bs;
      TilesOrdered(bs, lo, hi, k - 1, k);
    } else {
      FirstBlock(bs, lo, hi);
    }
    if k + 1 < |bs| {
      assert bs[k + 1] in bs;
      TilesOrdered(bs, lo, hi, k, k + 1);
    }
  }

  lemma FirstBlock(bs: seq<Block>, lo: nat, hi: nat)
    requires Tiles(bs, lo, hi) && bs != []
    ensures bs[0].addr == lo
  {
  }

  lemma JoinedTiles(bs: seq<Block>, lo: nat, hi: nat, k: nat)
    requires Tiles(bs, lo, hi) && k + 1 < |bs|
    ensures Tiles(Splice(bs, k, 2, [Joined(bs, k)]), lo, hi)
  {
    hide Tiles;
    TilesBounds(bs, lo, hi);
    TilesOrdered(bs, lo, hi, k, k + 1);
    TilesOne(Joined(bs, k));
    SpliceTiles(bs, lo, hi, k, 2, [Joined(bs, k)]);
  }

  /** The sanity checks of `free` hold for every live pointer. */
  lemma SaneTags(g: Heap, k: nat, m: seq<Byte>)
    requires k < |g.blocks| && AllTagged(m, g.start, g.blocks)
    ensures var b := g.blocks[k];
      && b.addr - g.start >= 0 && TAGS <= b.size && b.End() - g.start <= |m|
      && SizeAt(m, g.start, b.addr) == b.size
      && Read32(m, b.addr - g.start) == MAGIC
      && Read32(m, b.addr + b.size - FOOTER - g.start) == MAGIC
      && Read32(m, b.addr + b.size - FOOTER + 4 - g.start) == b.addr
  {
    assert Tagged(m, g.start, g.blocks[k]);
  }

  lemma FreeListed(g: Heap, k: nat)
    requires Sound(g) && k < |g.blocks| && !g.blocks[k].hole
    ensures LeftMerge(g.blocks, k) == 1 ==> Listed(g.holes, g.blocks[k - 1])
    ensures RightMerge(g.blocks, k) == 1 ==>
      Listed(if LeftMerge(g.blocks, k) == 1 then Without(g.holes, g.blocks[k - 1]) else g.holes, g.blocks[k + 1])
  {
    hide Tiles, BagOfHoles, Coalesced, Sorted;
    HolesAreBlocks(g);
    forall b, c | b in g.blocks && c in g.holes && c.addr == b.addr
      ensures c == b
    {
      PositionUnique(g.blocks, g.start, g.end, Position(g.blocks, b), Position(g.blocks, c));
    }
    if RightMerge(g.blocks, k) == 1 {
      assert g.blocks[k + 1] in g.blocks;
      if LeftMerge(g.blocks, k) == 1 {
        assert g.blocks[k - 1] in g.blocks;
        TilesOrdered(g.blocks, g.start, g.end, k - 1, k + 1);
        TilesBounds(g.blocks, g.start, g.end);
        WithoutOther(g.holes, g.blocks[k - 1], g.blocks[k + 1]);
      }
    } else if LeftMerge(g.blocks, k) == 1 {
      assert g.blocks[k - 1] in g.blocks;
    }
  }

  lemma WithoutOther(holes: seq<Block>, b: Block, c: Block)
    requires c in holes && b != c
    ensures c in Without(holes, b) && forall d :: d in Without(holes, b) ==> d in holes
  {
    if b in holes {
      var p := Position(holes, b);
      assert holes == holes[..p] + [b] + holes[p + 1..];
    }
  }

  /** The tiling once the freed block has taken in its neighbours. */
  function Unified(bs: seq<Block>, k: nat): seq<Block>
    requires k < |bs|
  {
    var l, r := LeftMerge(bs, k), RightMerge(bs, k);
    Splice(bs, k - l, l + 1 + r, [Merged(bs, k)])
  }

  lemma UnifiedAt(bs: seq<Block>, k: nat)
    requires k < |bs|
    ensures var j := k - LeftMerge(bs, k);
      j < |Unified(bs, k)| && Unified(bs, k)[j] == Merged(bs, k) && Merged(bs, k).hole
  {
  }

  /** Splicing what is left after trimming into the unified tiling gives the freed tiling. */
  lemma UnifiedTrimmed(g: Heap, k: nat)
    requires k < |g.blocks| && g.start <= Merged(g.blocks, k).addr
    ensures var j := k - LeftMerge(g.blocks, k);
      j < |Unified(g.blocks, k)| &&
        Freed(g, k).blocks == Splice(Unified(g.blocks, k), j, 1, Trimmed(g, Merged(g.blocks, k)).0)
  {
    hide Merged, Trimmed;
  }

  lemma MarkedTiles(bs: seq<Block>, lo: nat, hi: nat, k: nat)
    requires Tiles(bs, lo, hi) && k < |bs|
    ensures Tiles(Splice(bs, k, 1, [bs[k].(hole := true)]), lo, hi)
  {
    hide Tiles;
    TilesBounds(bs, lo, hi);
    assert bs[k] in bs;
    TilesOne(bs[k].(hole := true));
    SpliceTiles(bs, lo, hi, k, 1, [bs[k].(hole := true)]);
  }

  lemma MergedEnds(g: Heap, k: nat)
    requires Sound(g) && k < |g.blocks|
    ensures var bs, l, r := g.blocks, LeftMerge(g.blocks, k), RightMerge(g.blocks, k);
      && Merged(bs, k).addr == bs[k - l].addr && Merged(bs, k).End() == bs[k + r].End()
      && (l == 1 ==> bs[k - 1].End() == bs[k].addr)
      && g.start <= Merged(bs, k).addr && bs[k].End() <= Merged(bs, k).End() <= g.end
  {
    hide Tiles, BagOfHoles, Coalesced, Sorted;
    MergedTiles(g, k);
    Neighbours(g.blocks, g.start, g.end, k);
  }

  /** The tilings that `free` goes through on the way to the unified one. */
  lemma UnifySteps(bs: seq<Block>, k: nat)
    requires k < |bs| && (LeftMerge(bs, k) == 1 ==> bs[k - 1].End() == bs[k].addr)
    ensures var l, r, b1 := LeftMerge(bs, k), RightMerge(bs, k), Splice(bs, k, 1, [bs[k].(hole := true)]);
      && |b1| == |bs| && b1[k] == bs[k].(hole := true)
      && LeftMerge(b1, k) == l && (l == 1 ==> b1[k - 1] == bs[k - 1])
      && k - l < |MergedLeft(b1, k)|
    ensures var l, r, b2 := LeftMerge(bs, k), RightMerge(bs, k),
      MergedLeft(Splice(bs, k, 1, [bs[k].(hole := true)]), k);
      && b2[k - l].hole && b2[k - l].addr == bs[k - l].addr && b2[k - l].End() == bs[k].End()
      && RightMerge(b2, k - l) == r && (r == 1 ==> b2[k - l + 1] == bs[k + 1])
      && MergedRight(b2, k - l) == Unified(bs, k)
  {
    var l, r := LeftMerge(bs, k), RightMerge(bs, k);
    var b1 := bs[k := bs[k].(hole := true)];
    assert Splice(bs, k, 1, [bs[k].(hole := true)]) == b1;
    var b2 := MergedLeft(b1, k);
    var here := Block(bs[k - l].addr, (if l == 1 then bs[k - 1].size else 0) + bs[k].size, true);
    assert b2 == bs[..k - l] + [here] + bs[k + 1..];
    assert b2[k - l + 1..] == bs[k + 1..];
    assert r == 1 ==> MergedRight(b2, k - l) == bs[..k - l] + [Merged(bs, k)] + bs[k + 2..];
  }

  /** What `free` keeps in the index, and the hole it adds, are blocks of the new tiling. */
  lemma FreedParts(g: Heap, k: nat)
    requires Sound(g) && k < |g.blocks| && !g.blocks[k].hole
    ensures g.start <= Merged(g.blocks, k).addr
    ensures forall b :: b in HolesLeft(g, k) ==> b in Freed(g, k).blocks
    ensures forall b :: b in Trimmed(g, Merged(g.blocks, k)).0 ==> b in Freed(g, k).blocks
  {
    hide Tiles, BagOfHoles, Coalesced, Sorted, InsertPos, TrimmedEnd, HolesLeft;
    FreedSound(g, k);
    HolesAreBlocks(Freed(g, k));
    var c := HolesLeft(g, k);
    var rest := Trimmed(g, Merged(g.blocks, k)).0;
    if rest != [] {
      assert c == c[..InsertPos(c, rest[0], Smaller)] + c[InsertPos(c, rest[0], Smaller)..];
    }
  }

  lemma FreedUntouched(g: Heap, k: nat, m: seq<Byte>, m': seq<Byte>)
    requires Sound(g) && k < |g.blocks| && !g.blocks[k].hole && |m| == g.end - g.start
    requires g.start <= Merged(g.blocks, k).addr && |m'| == Freed(g, k).end - g.start
    requires Agree(m, m', 0, Merged(g.blocks, k).addr - g.start)
    requires Merged(g.blocks, k).End() != g.end ==> Agree(m, m', Merged(g.blocks, k).End() - g.start, |m|)
    ensures Untouched(m, m', g.start, Live(Freed(g, k).blocks))
  {
    hide Tiles, BagOfHoles, Coalesced, Sorted, Freed;
    var bs, l, r := g.blocks, LeftMerge(g.blocks, k), RightMerge(g.blocks, k);
    MergedTiles(g, k);
    FreedLive(g, k);
    TilesBounds(bs, g.start, g.end);
    forall b | b in Live(Freed(g, k).blocks)
      ensures Agree(m, m', b.addr - g.start, b.End() - g.start)
    {
      var j := Position(bs, b);
      if j < k - l {
        TilesOrdered(bs, g.start, g.end, j, k - l);
      } else {
        TilesOrdered(bs, g.start, g.end, k + r, j);
      }
    }
  }

  lemma UntouchedTwice(m0: seq<Byte>, m1: seq<Byte>, m2: seq<Byte>, base: nat, live: set<Block>)
    requires Untouched(m0, m1, base, live) && Untouched(m1, m2, base, live)
    ensures Untouched(m0, m2, base, live)
  {
  }

  lemma AllocStep(g: Heap, size: nat, align: bool)
    requires Sound(g)
    ensures g.start <= g.end <= g.max
    ensures var total := size + TAGS;
      var i := FirstFit(g.holes, total, align);
      if i < |g.holes| then
        g.holes[i] in g.blocks && HeapModel.Alloc(g, size, align) ==
          Some((Place(g, i, total, align), Carved(g.holes[i], total, align).Payload()))
      else if GrownEnd(g, total).None? then HeapModel.Alloc(g, size, align).None?
      else
        && (EndsInHole(g.blocks) ==> g.blocks[|g.blocks| - 1] in g.holes)
        && g.end <= GrownEnd(g, total).value && Sound(Grown(g, GrownEnd(g, total).value))
        && HeapModel.Alloc(g, size, align) == HeapModel.Alloc(Grown(g, GrownEnd(g, total).value), size, align)
  {
    hide Tiles, BagOfHoles, Coalesced, Sorted, Place, Grown, Gap;
    var total := size + TAGS;
    var i := FirstFit(g.holes, total, align);
    if i < |g.holes| {
      PlaceSound(g, i, total, align);
    } else if GrownEnd(g, total).Some? {
      GrownSound(g, total);
    }
  }

  lemma GrownFacts(g: Heap, total: nat)
    requires Sound(g) && TAGS <= total && GrownEnd(g, total).Some?
    ensures EndsInHole(g.blocks) ==> g.blocks[|g.blocks| - 1] in g.holes
    ensures var r := Grown(g, GrownEnd(g, total).value);
      && g.end < r.end <= r.max == g.max && Live(r.blocks) == Live(g.blocks)
      && EndsInHole(r.blocks) && |r.holes| == |g.holes| + (if EndsInHole(g.blocks) then 0 else 1)
  {
    hide Tiles, BagOfHoles, Coalesced, Sorted;
    GrownSound(g, total);
    var e := GrownEnd(g, total).value;
    GrownLive(g, e);
    GrownFrame(g, e);
  }

  lemma UntouchedSame(g: Heap, m: seq<Byte>)
    requires Sound(g) && |m| == g.end - g.start
    ensures Untouched(m, m, g.start, Live(g.blocks))
  {
    TilesBounds(g.blocks, g.start, g.end);
  }

  lemma GrownUntouched(g: Heap, m0: seq<Byte>, m1: seq<Byte>, m2: seq<Byte>)
    requires Sound(g) && |m0| == g.end - g.start && Agree(m0, m1, 0, |m0|)
    requires if EndsInHole(g.blocks) then
        g.start <= g.blocks[|g.blocks| - 1].addr && Agree(m1, m2, 0, g.blocks[|g.blocks| - 1].addr - g.start)
      else Agree(m1, m2, 0, |m0|)
    ensures Untouched(m0, m2, g.start, Live(g.blocks))
  {
    hide Tiles, BagOfHoles, Coalesced, Sorted;
    TilesBounds(g.blocks, g.start, g.end);
    if EndsInHole(g.blocks) {
      forall b | b in Live(g.blocks)
        ensures b.End() <= g.blocks[|g.blocks| - 1].addr
      {
        TilesOrdered(g.blocks, g.start, g.end, Position(g.blocks, b), |g.blocks| - 1);
      }
    }
  }

  lemma GrowthReady(g: Heap, total: nat)
    requires Sound(g) && TAGS <= total && 0 < g.start
    ensures EndsInHole(g.blocks) ==> g.blocks[|g.blocks| - 1] in g.holes
    ensures g.start % PAGE == 0 && g.end % PAGE == 0 && g.start <= g.end && g.max < U32
    ensures GrownEnd(g, total).Some? ==>
      var e := GrownEnd(g, total).value; g.end + total <= e <= g.max && Sound(Grown(g, e))
    ensures Tiles(g.blocks, g.start, g.end)
  {
    hide Tiles, BagOfHoles, Coalesced, Sorted;
    HolesAreBlocks(g);
    if GrownEnd(g, total).Some? {
      GrownSound(g, total);
    }
  }

  lemma {:induction false} PositionFirst(bs: seq<Block>, b: Block, i: nat)
    requires b in bs && i < |bs|
    ensures bs[i] == b ==> Position(bs, b) <= i
    ensures (forall j :: 0 <= j <= i ==> bs[j] != b) ==> i < Position(bs, b)
  {
    if bs[0] != b && i > 0 {
      PositionFirst(bs[1..], b, i - 1);
    }
  }

  lemma {:induction false} BagOnce(bs: seq<Block>, lo: nat, hi: nat, b: Block)
    requires Tiles(bs, lo, hi)
    ensures BagOfHoles(bs)[b] <= 1
  {
    if bs != [] {
      BagOnce(bs[1..], bs[0].End(), hi, b);
      BagMembers(bs[1..]);
      TilesBounds(bs[1..], bs[0].End(), hi);
    }
  }

  /** The index holds every hole once. */
  lemma HolesOnce(g: Heap, i: nat, j: nat)
    requires Sound(g) && i < j < |g.holes|
    ensures g.holes[i] != g.holes[j]
  {
    hide Tiles, BagOfHoles, Coalesced, Sorted;
    BagOnce(g.blocks, g.start, g.end, g.holes[i]);
    CountedTwice(g.holes, i, j);
  }

  lemma CountedTwice<T>(s: seq<T>, i: nat, j: nat)
    requires i < j < |s|
    ensures s[i] == s[j] ==> multiset(s)[s[i]] >= 2
  {
    assert s == s[..j] + s[j..];
    assert s[..j][i] in s[..j] && s[j..][0] in s[j..];
  }

  lemma HolePosition(g: Heap, i: nat)
    requires Sound(g) && i < |g.holes|
    ensures Position(g.holes, g.holes[i]) == i
  {
    var p := Position(g.holes, g.holes[i]);
    if p < i { HolesOnce(g, p, i); }
    if i < p { HolesOnce(g, i, p); }
  }

  /** The holes that stay in the index stay in the tiling. */
  lemma RemainIn(g: Heap, i: nat, k: nat, ps: seq<Block>)
    requires Sound(g) && i < |g.holes| && k < |g.blocks| && g.blocks[k] == g.holes[i]
    ensures forall b :: b in Removed(g.holes, i) ==> b in Splice(g.blocks, k, 1, ps)
  {
    hide Tiles, BagOfHoles, Coalesced, Sorted;
    HolesAreBlocks(g);
    forall b | b in Removed(g.holes, i)
      ensures b in Splice(g.blocks, k, 1, ps)
    {
      var j :| 0 <= j < |g.holes| && j != i && g.holes[j] == b;
      HolesOnce(g, if i < j then i else j, if i < j then j else i);
      assert b in g.holes;
      assert g.blocks == g.blocks[..k] + [g.blocks[k]] + g.blocks[k + 1..];
    }
  }

  /** The hole with the highest address ends the heap exactly when the last block is a hole. */
  lemma LastHoleIsLast(g: Heap, i: nat)
    requires Sound(g) && i < |g.holes| && forall b :: b in g.holes ==> b.addr <= g.holes[i].addr
    ensures EndsInHole(g.blocks) <==> g.holes[i].End() == g.end
    ensures EndsInHole(g.blocks) ==> g.holes[i] == g.blocks[|g.blocks| - 1] && i == Position(g.holes, g.holes[i])
  {
    hide Tiles, BagOfHoles, Coalesced, Sorted;
    HolesAreBlocks(g);
    HolePosition(g, i);
    var b, n := g.holes[i], |g.blocks|;
    assert b in g.holes;
    var k := Position(g.blocks, b);
    TilesBounds(g.blocks, g.start, g.end);
    if k < n - 1 {
      TilesOrdered(g.blocks, g.start, g.end, k, n - 1);
    }
    assert g.blocks[n - 1] in g.blocks;
  }

  /** Writes inside hole `i` leave the other holes of the index sized. */
  lemma Remaining(g: Heap, i: nat, k: nat, m: seq<Byte>, m': seq<Byte>)
    requires Sound(g) && i < |g.holes| && k < |g.blocks| && g.blocks[k] == g.holes[i]
    requires AllTagged(m, g.start, g.blocks)
    requires Agree(m, m', 0, g.blocks[k].addr - g.start) && Agree(m, m', g.blocks[k].End() - g.start, g.end - g.start)
    ensures Sized(m', g.start, Removed(g.holes, i))
  {
    hide Tiles, Tagged, BagOfHoles, Coalesced, Sorted, SizeAt, Removed, Splice;
    Retagged(m, m', g.start, g.end, g.blocks, k, 1, []);
    RemainIn(g, i, k, []);
    TaggedSized(m', g.start, Splice(g.blocks, k, 1, []), Removed(g.holes, i));
  }

  lemma InsertedMembers(holes: seq<Block>, added: seq<Block>)
    requires |added| <= 1
    ensures forall b :: b in InsertAll(holes, added) ==> b in holes || b in added
  {
    hide InsertPos;
  }

  // ---------------------------------------------------------------- runs

  /** The memory holds, at every pointer that is not released, the bytes its owner put there. */
  ghost predicate Holds(m: seq<Byte>, base: nat, store: map<nat, seq<Byte>>) {
    forall p :: p in store ==> HoldsAt(m, base, p, store[p])
  }

  ghost predicate HoldsAt(m: seq<Byte>, base: nat, p: nat, bytes: seq<Byte>) {
    base <= p && p - base + |bytes| <= |m| && m[p - base..p - base + |bytes|] == bytes
  }

  lemma HeldOn(s: State, m: seq<Byte>, m': seq<Byte>, live: set<Block>, p: nat)
    requires p in s.store && HoldsAt(m, s.heap.start, p, s.store[p]) && Untouched(m, m', s.heap.start, live)
    requires Owned(live, p, |s.store[p]|)
    ensures HoldsAt(m', s.heap.start, p, s.store[p])
  {
    var b :| b in live && b.Payload() == p && |s.store[p]| + TAGS <= b.size;
    var o := p - s.heap.start;
    assert Agree(m, m', b.addr - s.heap.start, b.End() - s.heap.start);
    assert m'[o..o + |s.store[p]|] == m[o..o + |s.store[p]|];
  }

  lemma HeldAfterPut(m: seq<Byte>, base: nat, p: nat, bytes: seq<Byte>, offset: nat, data: seq<Byte>)
    requires HoldsAt(m, base, p, bytes) && offset + |data| <= |bytes|
    ensures HoldsAt(Write(m, p - base + offset, data), base, p, Write(bytes, offset, data))
  {
    var o := p - base;
    assert Write(m, o + offset, data)[o..o + |bytes|] == Write(bytes, offset, data);
  }

  /** The call and its reply are a step of the allocator, to this heap and to bytes that memory holds. */
  ghost predicate After(s: State, call: Call, reply: Reply, h: Heap, m: seq<Byte>)
    requires Owns(s)
  {
    && Step(s, call, reply).Some?
    && var r := Step(s, call, reply).value;
       r.heap == h && Holds(m, h.start, r.store)
  }

  /** How releasing `p` ends. */
  ghost function ReleaseEnding(s: State, p: nat, cells: nat): (e: Ending)
    requires Owns(s) && (p == 0 || p in s.store)
    ensures e != Refused && e != OutOfMemory
  {
    if p == 0 then Completed
    else
      OwnedAt(s.heap, p, |s.store[p]|);
      if cells < |Freed(s.heap, LiveAt(s.heap.blocks, p)).holes| then IndexFull else Completed
  }

  /** How a call ends; an illegal one, or one whose size leaves 32 bits, is not made. */
  ghost function CallEnding(s: State, call: Call, cells: nat): Ending
    requires Owns(s)
  {
    if Illegal(s, call) then Refused
    else
      match call
      case Request(size, align) => if U32 <= size + TAGS then Refused else AllocEnding(s.heap, size, align, cells)
      case Release(p) => ReleaseEnding(s, p, cells)
      case Put(_, _, _) => Completed
      case Get(_, _, _) => Completed
  }

  /** A call is refused exactly when its size leaves 32 bits, or it is of a pointer that is not the
      caller's, or it reaches outside what was requested. */
  lemma RefusedExact(s: State, call: Call, cells: nat)
    requires Owns(s)
    ensures CallEnding(s, call, cells) == Refused <==>
      match call
      case Request(size, _) => 0x1_0000_0000 <= size + 20
      case Release(p) => p != 0 && p !in s.store
      case Put(p, offset, data) => p in s.store ==> |s.store[p]| < offset + |data|
      case Get(p, offset, count) => p in s.store ==> |s.store[p]| < offset + count
  {
    hide AllocEnding, ReleaseEnding, Owns;
  }

  /** An index with a cell to spare, two if the heap does not end in a hole, never runs full; the
      request then completes exactly when the heap can be grown for it. */
  lemma RoomyEnding(g: Heap, size: nat, align: bool, cells: nat)
    requires Sound(g) && |g.holes| + (if EndsInHole(g.blocks) then 1 else 2) <= cells
    ensures AllocEnding(g, size, align, cells) ==
      if HeapModel.Alloc(g, size, align).Some? then Completed else OutOfMemory
    decreases g.max - g.end
  {
    hide Sound, AllocEnding, HeapModel.Alloc, Grown, Place, Carved, Fits;
    var total := size + TAGS;
    EndingStep(g, size, align, cells);
    AllocStep(g, size, align);
    if FirstFit(g.holes, total, align) == |g.holes| && GrownEnd(g, total).Some? {
      GrownFacts(g, total);
      RoomyEnding(Grown(g, GrownEnd(g, total).value), size, align, cells);
    }
  }

  /** An unaligned request finds the index full exactly when it must add a hole for the new space:
      no hole suffices, the heap can grow, its last block is live and every cell is taken. */
  lemma UnalignedEnding(g: Heap, size: nat, cells: nat)
    requires Sound(g) && |g.holes| <= cells
    ensures AllocEnding(g, size, false, cells) == IndexFull <==>
      && |g.holes| == cells && !EndsInHole(g.blocks)
      && (forall b :: b in g.blocks && b.hole ==> b.size < size + TAGS)
      && g.start + AlignUp(g.end - g.start + size + TAGS) <= g.max
  {
    hide Sound, AllocEnding, Grown, Gap, AlignUp, HeapModel.Alloc, Place, Carved;
    var total := size + TAGS;
    AllocStep(g, size, false);
    EndingStep(g, size, false, cells);
    GrowsAtMostOnce(g, size);
    BestFit(g, total);
    NoFront(g.holes, total);
    assert g.end - g.start + size + TAGS == g.end - g.start + total;
    if
      && FirstFit(g.holes, total, false) == |g.holes| && GrownEnd(g, total).Some?
      && (EndsInHole(g.blocks) || |g.holes| < cells)
    {
      GrownFacts(g, total);
      var r := Grown(g, GrownEnd(g, total).value);
      EndingStep(r, size, false, cells);
      NoFront(r.holes, total);
    }
  }

  lemma NoFront(holes: seq<Block>, total: nat)
    ensures forall i :: 0 <= i < |holes| ==> Front(holes[i], total, false) == []
  {
  }

  /** Freeing finds the index full exactly when every cell is taken, neither neighbour is a hole to
      merge with, and something of the freed block is left in the heap. */
  lemma ReleaseExact(g: Heap, k: nat, cells: nat)
    requires Sound(g) && k < |g.blocks| && !g.blocks[k].hole && |g.holes| <= cells
    ensures g.start <= Merged(g.blocks, k).addr
    ensures cells < |Freed(g, k).holes| <==>
      && |g.holes| == cells && (0 < k ==> !g.blocks[k - 1].hole) && (k + 1 < |g.blocks| ==> !g.blocks[k + 1].hole)
      && g.blocks[k].addr < Freed(g, k).end
  {
    hide Tiles, BagOfHoles, Coalesced, Sorted, TrimmedEnd, HolesLeft;
    MergedTiles(g, k);
    HolesLeftCount(g, k);
    TilesBounds(g.blocks, g.start, g.end);
    assert g.blocks[k] in g.blocks;
  }

  lemma HolesLeftCount(g: Heap, k: nat)
    requires Sound(g) && k < |g.blocks| && !g.blocks[k].hole
    ensures |HolesLeft(g, k)| == |g.holes| - LeftMerge(g.blocks, k) - RightMerge(g.blocks, k)
  {
    hide Sound, BagOfHoles, HolesLeft;
    HolesLeftBag(g, k);
    MergedBag(g.blocks, k);
    var l, r := LeftMerge(g.blocks, k), RightMerge(g.blocks, k);
    assert |multiset(HolesLeft(g, k)) + BagOfHoles(g.blocks[k - l..k + 1 + r])| == |multiset(g.holes)|;
  }

  /** What the owners know: their pointers and the sizes they requested. */
  ghost predicate Sizes(sizes: map<nat, nat>, store: map<nat, seq<Byte>>) {
    sizes.Keys == store.Keys && forall p :: p in sizes ==> sizes[p] == |store[p]|
  }

  function Tracked(sizes: map<nat, nat>, call: Call, reply: Reply): map<nat, nat> {
    match call
    case Request(size, _) => if reply.Gave? then sizes[reply.ptr := size] else sizes
    case Release(p) => sizes - {p}
    case Put(_, _, _) => sizes
    case Get(_, _, _) => sizes
  }

  lemma NextSizes(s: State, sizes: map<nat, nat>, call: Call, reply: Reply)
    requires Owns(s) && Sizes(sizes, s.store) && Step(s, call, reply).Some?
    ensures Sizes(Tracked(sizes, call, reply), Step(s, call, reply).value.store)
  {
  }

  lemma RunNext(s: State, calls: seq<Call>, replies: seq<Reply>, reply: Reply)
    requires Owns(s) && |replies| < |calls| && Run(s, calls[..|replies|], replies).Some?
    requires Step(Run(s, calls[..|replies|], replies).value, calls[|replies|], reply).Some?
    ensures Run(s, calls[..|replies| + 1], replies + [reply])
      == Step(Run(s, calls[..|replies|], replies).value, calls[|replies|], reply)
  {
    hide Owns, Step;
    var n := |replies|;
    assert calls[..n + 1][..n] == calls[..n] && (replies + [reply])[..n] == replies;
  }

  lemma NothingHeld(m: seq<Byte>, base: nat)
    ensures Holds(m, base, map[])
  {
  }

  lemma OwnedInside(h: Heap, p: nat, n: nat, m: seq<Byte>)
    requires Sound(h) && Owned(Live(h.blocks), p, n) && |m| == h.end - h.start
    ensures h.start <= p && p - h.start + n <= |m|
    ensures HoldsAt(m, h.start, p, m[p - h.start..p - h.start + n])
  {
    hide Sound;
    OwnedAt(h, p, n);
  }

  lemma OwnedOther(s: State, b: Block, q: nat)
    requires Owns(s) && q in s.store && b.Payload() != q
    ensures Owned(Live(s.heap.blocks) - {b}, q, |s.store[q]|)
  {
    hide Sound;
    var c :| c in Live(s.heap.blocks) && c.Payload() == q && |s.store[q]| + TAGS <= c.size;
    assert c in Live(s.heap.blocks) - {b};
  }

  lemma HeldAfterRequest(s: State, size: nat, align: bool, reply: Reply, h: Heap, m: seq<Byte>, m': seq<Byte>)
    requires Owns(s) && reply.Gave? && HeapModel.Alloc(s.heap, size, align) == Some((h, reply.ptr))
    requires h.start == s.heap.start && |reply.bytes| == size && HoldsAt(m', h.start, reply.ptr, reply.bytes)
    requires Holds(m, h.start, s.store) && Untouched(m, m', h.start, Live(s.heap.blocks))
    ensures After(s, Request(size, align), reply, h, m')
  {
    hide Sound, HeapModel.Alloc, Untouched, Live, HoldsAt, Owned;
    forall q | q in s.store
      ensures HoldsAt(m', h.start, q, s.store[q])
    {
      HeldOn(s, m, m', Live(s.heap.blocks), q);
    }
  }

  lemma HeldAfterRelease(s: State, p: nat, m: seq<Byte>, m': seq<Byte>)
    requires Owns(s) && p in s.store && p != 0 && Holds(m, s.heap.start, s.store)
    requires var k := LiveAt(s.heap.blocks, p);
      && k < |s.heap.blocks| && s.heap.start <= Merged(s.heap.blocks, k).addr
      && Untouched(m, m', s.heap.start, Live(Freed(s.heap, k).blocks))
    ensures After(s, Release(p), Silent, Freed(s.heap, LiveAt(s.heap.blocks, p)), m')
  {
    hide Sound, Untouched, Live, HoldsAt, Owned, Freed, Merged, LiveAt;
    ReleaseOwns(s, p);
    var k := LiveAt(s.heap.blocks, p);
    FreedFrame(s.heap, k);
    forall q | q in s.store && q != p
      ensures HoldsAt(m', s.heap.start, q, s.store[q])
    {
      HeldOn(s, m, m', Live(Freed(s.heap, k).blocks), q);
    }
  }
}
