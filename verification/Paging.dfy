/** Boot paging: placement allocator, frame bitmap and two-level page table (src/mem/page.c, src/mem/kmalloc.c). */
module Paging {
  import opened Machine

  const TABLE_PAGES: nat := 1024
  const TABLES: nat := 1024
  const PAGES: nat := 0x100000

  // ---------------------------------------------------------------- placement

  datatype Request = Request(size: nat, align: bool)
  datatype Area = Area(addr: nat, size: nat)

  /** `kmalloc_aux` while there is no heap: the area, which also becomes the physical address. */
  function Place(placement: nat, r: Request): Area {
    Area(if r.align then AlignUp(placement) else placement, r.size)
  }

  function PlaceAll(placement: nat, rs: seq<Request>): (areas: seq<Area>)
    ensures |areas| == |rs|
    decreases |rs|
  {
    if rs == [] then []
    else
      var a := Place(placement, rs[0]);
      [a] + PlaceAll(a.addr + a.size, rs[1..])
  }

  /** Areas placed one after the other are disjoint, in order, and aligned when asked. */
  lemma {:induction false} PlacedApart(placement: nat, rs: seq<Request>)
    ensures var areas := PlaceAll(placement, rs);
      && (forall i :: 0 <= i < |rs| ==> placement <= areas[i].addr && areas[i].size == rs[i].size)
      && (forall i :: 0 <= i < |rs| && rs[i].align ==> areas[i].addr % PAGE == 0)
      && (forall i, j :: 0 <= i < j < |rs| ==> areas[i].addr + areas[i].size <= areas[j].addr)
      && (forall i :: 0 <= i < |rs| ==>
            var before := if i == 0 then placement else areas[i - 1].addr + areas[i - 1].size;
            areas[i].addr < before + PAGE && (!rs[i].align ==> areas[i].addr == before))
    decreases |rs|
  {
    if rs != [] {
      var a := Place(placement, rs[0]);
      PlacedApart(a.addr + a.size, rs[1..]);
    }
  }

  // ---------------------------------------------------------------- the frame bitmap

  function Mask(j: nat): bv32
    requires j < 32
  {
    1 << j
  }

  function And(w: bv32, m: bv32): bv32 { w & m }

  function With(w: bv32, m: bv32): bv32 { w | m }

  function Without(w: bv32, m: bv32): bv32 { w & !m }

  predicate Hits(w: bv32, m: bv32) { And(w, m) != 0 }

  predicate Bit(w: bv32, j: nat)
    requires j < 32
  {
    Hits(w, Mask(j))
  }

  /** Bit 0 is the lowest. */
  lemma MaskOrder(j: nat)
    requires j < 31
    ensures Mask(0) == 1 && Mask(j + 1) == Mask(j) << 1
  {
  }

  lemma MasksApart(j: nat, k: nat)
    requires j < 32 && k < 32
    ensures Hits(Mask(j), Mask(k)) <==> j == k
  {
  }

  lemma AndWith(w: bv32, m: bv32, n: bv32)
    ensures And(With(w, m), n) == With(And(w, n), And(m, n))
  {
  }

  lemma WithZero(a: bv32, b: bv32)
    ensures With(a, b) == 0 <==> a == 0 && b == 0
  {
  }

  lemma HitsWith(w: bv32, m: bv32, n: bv32)
    ensures Hits(With(w, m), n) <==> Hits(w, n) || Hits(m, n)
  {
    hide And, With;
    AndWith(w, m, n);
    WithZero(And(w, n), And(m, n));
  }

  lemma HitsWithout(w: bv32, m: bv32, n: bv32)
    ensures !Hits(m, n) ==> (Hits(Without(w, m), n) <==> Hits(w, n))
    ensures m == n ==> !Hits(Without(w, m), n)
  {
  }

  lemma SetBit(w: bv32, j: nat, k: nat)
    requires j < 32 && k < 32
    ensures Bit(With(w, Mask(j)), k) <==> k == j || Bit(w, k)
  {
    hide Mask, Hits, With;
    HitsWith(w, Mask(j), Mask(k));
    MasksApart(j, k);
  }

  lemma ClearBit(w: bv32, j: nat, k: nat)
    requires j < 32 && k < 32
    ensures Bit(Without(w, Mask(j)), k) <==> k != j && Bit(w, k)
  {
    hide Mask, Hits, Without;
    HitsWithout(w, Mask(j), Mask(k));
    MasksApart(j, k);
  }

  lemma FullWord(k: nat)
    requires k < 32
    ensures Bit(0xFFFFFFFF, k)
  {
  }

  /** Frame `f` is marked in the bitmap. */
  predicate Marked(words: seq<bv32>, f: nat) {
    f / 32 < |words| && Bit(words[f / 32], f % 32)
  }

  lemma MarkedAfterSet(words: seq<bv32>, f: nat, g: nat)
    requires f / 32 < |words|
    ensures Marked(words[f / 32 := With(words[f / 32], Mask(f % 32))], g) <==> g == f || Marked(words, g)
  {
    hide Mask, Bit, With, Without;
    if g / 32 == f / 32 {
      SetBit(words[f / 32], f % 32, g % 32);
    }
  }

  lemma MarkedAfterClear(words: seq<bv32>, f: nat, g: nat)
    requires f / 32 < |words|
    ensures Marked(words[f / 32 := Without(words[f / 32], Mask(f % 32))], g) <==> g != f && Marked(words, g)
  {
    hide Mask, Bit, With, Without;
    if g / 32 == f / 32 {
      ClearBit(words[f / 32], f % 32, g % 32);
    }
  }

  // ---------------------------------------------------------------- entries and frames

  datatype Entry = Entry(present: bool, rw: bool, user: bool, frame: nat)

  const ABSENT: Entry := Entry(false, false, false, 0)

  /** Every present entry has a marked frame of its own, frame 0 included, and the others have none. */
  ghost predicate FramesApart(entries: map<nat, Entry>, words: seq<bv32>) {
    && (forall a :: a in entries && entries[a].present ==> Marked(words, entries[a].frame))
    && (forall a :: a in entries && !entries[a].present ==> entries[a].frame == 0)
    && (forall a, b :: a in entries && b in entries && a != b && entries[a].present && entries[b].present ==>
          entries[a].frame != entries[b].frame)
  }

  /** A present entry other than `page` has frame `f`. */
  ghost predicate Taken(entries: map<nat, Entry>, page: nat, f: nat) {
    exists a :: a in entries && a != page && entries[a].present && entries[a].frame == f
  }

  ghost predicate Full(words: seq<bv32>) {
    forall g: nat :: g < 32 * |words| ==> Marked(words, g)
  }

  /** What `first_frame` answers: the least clear frame, or the number of words when there is none. */
  ghost predicate NextFrame(words: seq<bv32>, f: nat) {
    if Full(words) then f == |words|
    else f < 32 * |words| && !Marked(words, f) && forall g: nat :: g < f ==> Marked(words, g)
  }

  /** Giving a page the next frame keeps frames apart exactly when there is a clear one or no other
      entry has the frame that is handed out instead. */
  lemma ApartGiven(entries: map<nat, Entry>, words: seq<bv32>, words': seq<bv32>, page: nat, e: Entry)
    requires page in entries && FramesApart(entries, words) && NextFrame(words, e.frame) && e.present
    requires forall g: nat :: Marked(words', g) <==> g == e.frame || Marked(words, g)
    ensures FramesApart(entries[page := e], words') <==> !Full(words) || !Taken(entries, page, |words|)
  {
    hide Marked;
    var after := entries[page := e];
    if Full(words) && Taken(entries, page, |words|) {
      var a :| a in entries && a != page && entries[a].present && entries[a].frame == |words|;
      assert after[a] == entries[a] && after[page] == e;
    }
  }

  /** Freeing as written keeps frames apart exactly when the bit it clears is not that of frame 0,
      which the page shows from then on, nor of anyone else, and frame 0 is marked and nobody's. */
  lemma ApartFreedAsWritten(entries: map<nat, Entry>, words: seq<bv32>, words': seq<bv32>, page: nat)
    requires page in entries && FramesApart(entries, words) && entries[page].frame != 0
    requires forall g: nat :: Marked(words', g) <==> g != entries[page].frame / PAGE && Marked(words, g)
    ensures var f := entries[page].frame;
      FramesApart(entries[page := entries[page].(frame := 0)], words') <==>
        PAGE <= f && Marked(words, 0) && !Taken(entries, page, 0) && !Taken(entries, page, f / PAGE)
  {
    hide Marked;
    var f, after := entries[page].frame, entries[page := entries[page].(frame := 0)];
    assert after[page].present && after[page].frame == 0;
    if a :| a in entries && a != page && entries[a].present && entries[a].frame == 0 {
      assert after[a] == entries[a];
    }
    if a :| a in entries && a != page && entries[a].present && entries[a].frame == f / PAGE {
      assert after[a] == entries[a];
    }
  }

  // ---------------------------------------------------------------- the two-level table

  /** The tables of the directory by address (0 for none), their entries by address, and the placement pointer. */
  datatype Space = Space(tables: seq<nat>, entries: map<nat, Entry>, placement: nat)

  /** Page `p` has a table. */
  predicate HasTable(s: Space, p: nat)
    requires |s.tables| == TABLES && p < PAGES
  {
    s.tables[p / TABLE_PAGES] != 0
  }

  /** Where the entry of page `p` lies. */
  function Pointer(s: Space, p: nat): nat
    requires |s.tables| == TABLES && p < PAGES
  {
    s.tables[p / TABLE_PAGES] + 4 * (p % TABLE_PAGES)
  }

  /** Every table is a page of its own below `placement` and holds 1024 entries. */
  ghost predicate TablesOk(s: Space) {
    && |s.tables| == TABLES && 0 < s.placement
    && (forall i :: 0 <= i < TABLES && s.tables[i] != 0 ==>
      s.tables[i] % PAGE == 0 && s.tables[i] + PAGE <= s.placement)
    && (forall i, j :: 0 <= i < j < TABLES && s.tables[i] != 0 ==> s.tables[i] != s.tables[j])
    && (forall p :: 0 <= p < PAGES && HasTable(s, p) ==> Pointer(s, p) in s.entries)
  }

  /** The flat map that the two levels stand for. */
  function Flat(s: Space, p: nat): Entry
    requires |s.tables| == TABLES && p < PAGES && Pointer(s, p) in s.entries
  {
    s.entries[Pointer(s, p)]
  }

  function EmptyTable(table: nat): map<nat, Entry> {
    map k | 0 <= k < TABLE_PAGES :: table + 4 * k := ABSENT
  }

  lemma EmptyAbsent(table: nat)
    ensures forall a :: a in EmptyTable(table) ==> EmptyTable(table)[a] == ABSENT
  {
  }

  /** A new table holds no frames. */
  lemma ApartTable(entries: map<nat, Entry>, words: seq<bv32>, table: nat)
    requires FramesApart(entries, words)
    ensures FramesApart(entries + EmptyTable(table), words)
  {
    hide Marked, EmptyTable;
    EmptyAbsent(table);
    var after := entries + EmptyTable(table);
    assert forall a :: a in after && after[a].present ==> a in entries && after[a] == entries[a];
  }

  /** The space once page `p` has a table. */
  function WithTable(s: Space, p: nat): Space
    requires |s.tables| == TABLES && p < PAGES
  {
    if HasTable(s, p) then s
    else
      var table := AlignUp(s.placement);
      Space(s.tables[p / TABLE_PAGES := table], s.entries + EmptyTable(table), table + PAGE)
  }

  /** Different pages have different entries: the two levels are a flat map. */
  lemma PointersApart(s: Space, p: nat, q: nat)
    requires TablesOk(s) && p < PAGES && q < PAGES && HasTable(s, p) && HasTable(s, q) && p != q
    ensures Pointer(s, p) != Pointer(s, q)
  {
    var i, j := p / TABLE_PAGES, q / TABLE_PAGES;
    if i != j {
      assert s.tables[i] != s.tables[j];
      assert s.tables[i] / PAGE != s.tables[j] / PAGE;
    }
  }

  /** The first page of a table has the entry at its start, and the next page of it the next word. */
  lemma PointerOrder(s: Space, i: nat, p: nat)
    requires |s.tables| == TABLES && i < 1024 && p + 1 < 0x100000
    ensures Pointer(s, 1024 * i) == s.tables[i]
    ensures (p + 1) % 1024 != 0 ==> Pointer(s, p + 1) == Pointer(s, p) + 4
  {
    assert (1024 * i) / TABLE_PAGES == i && (1024 * i) % TABLE_PAGES == 0;
    assert (p + 1) % 1024 != 0 ==>
      (p + 1) / TABLE_PAGES == p / TABLE_PAGES && (p + 1) % TABLE_PAGES == p % TABLE_PAGES + 1;
  }

  /** An entry lies below `placement`, so a new table overlays none. */
  lemma PointerBelow(s: Space, p: nat)
    requires TablesOk(s) && p < PAGES && HasTable(s, p)
    ensures Pointer(s, p) < s.placement && Pointer(s, p) !in EmptyTable(AlignUp(s.placement))
  {
  }

  lemma PointerInNew(table: nat, p: nat)
    ensures table + 4 * (p % TABLE_PAGES) in EmptyTable(table)
    ensures EmptyTable(table)[table + 4 * (p % TABLE_PAGES)] == ABSENT
  {
  }

  /** Making a table changes no other page, and the pages of the new table are absent. */
  lemma WithTableFlat(s: Space, p: nat, q: nat)
    requires TablesOk(s) && p < PAGES && q < PAGES
    ensures |WithTable(s, p).tables| == TABLES && HasTable(WithTable(s, p), p)
    ensures HasTable(s, q) ==>
      var r := WithTable(s, p);
      HasTable(r, q) && Pointer(r, q) == Pointer(s, q) && Pointer(r, q) in r.entries && Flat(r, q) == Flat(s, q)
    ensures !HasTable(s, q) ==>
      var r := WithTable(s, p);
      && (HasTable(r, q) <==> q / TABLE_PAGES == p / TABLE_PAGES)
      && (HasTable(r, q) ==> Pointer(r, q) in r.entries && Flat(r, q) == ABSENT)
  {
    hide EmptyTable;
    if HasTable(s, q) {
      PointerBelow(s, q);
    } else {
      PointerInNew(AlignUp(s.placement), q);
    }
  }

  lemma WithTableOk(s: Space, p: nat)
    requires TablesOk(s) && p < PAGES
    ensures TablesOk(WithTable(s, p))
  {
    hide EmptyTable, Pointer;
    var r := WithTable(s, p);
    forall q | 0 <= q < PAGES && HasTable(r, q)
      ensures Pointer(r, q) in r.entries
    {
      WithTableFlat(s, p, q);
    }
  }

  /** Making tables for any sequence of pages leaves every page that had one its entry. */
  lemma {:induction false} WithTablesFlat(s: Space, ps: seq<nat>, q: nat)
    requires TablesOk(s) && q < PAGES && HasTable(s, q) && forall i :: 0 <= i < |ps| ==> ps[i] < PAGES
    ensures |WithTables(s, ps).tables| == TABLES
    ensures var r := WithTables(s, ps);
      TablesOk(r) && HasTable(r, q) && Pointer(r, q) == Pointer(s, q) && Flat(r, q) == Flat(s, q)
    decreases |ps|
  {
    hide EmptyTable, Pointer, WithTable;
    if ps != [] {
      WithTableFlat(s, ps[0], q);
      WithTableOk(s, ps[0]);
      WithTablesFlat(WithTable(s, ps[0]), ps[1..], q);
    }
  }

  function WithTables(s: Space, ps: seq<nat>): (r: Space)
    requires |s.tables| == TABLES && forall i :: 0 <= i < |ps| ==> ps[i] < PAGES
    ensures |r.tables| == TABLES
    decreases |ps|
  {
    if ps == [] then s
    else
      assert forall i :: 0 <= i < |ps| - 1 ==> ps[1..][i] == ps[i + 1];
      WithTables(WithTable(s, ps[0]), ps[1..])
  }

  // ---------------------------------------------------------------- boot

  const BITMAP: nat := 512
  const WORDS: nat := 128
  const DIR_SIZE: nat := 8196
  const HEAP_SIZE: nat := 32
  const HEAP_PAGE: nat := 0xC0000
  const HEAP_PAGES: nat := 0x100

  /** The entry of page `p` once `k` identity pages and `j` heap pages have frames. */
  function Expected(p: nat, k: nat, j: nat): Entry {
    if p < k then Entry(true, false, true, p)
    else if HEAP_PAGE <= p < HEAP_PAGE + j then Entry(true, false, true, k + (p - HEAP_PAGE))
    else ABSENT
  }

  ghost predicate Booted(s: Space, words: seq<bv32>, k: nat, j: nat) {
    && TablesOk(s) && |words| == WORDS && k <= HEAP_PAGE && j <= HEAP_PAGES
    && (forall f: nat :: Marked(words, f) <==> f < k + j)
    && (forall p :: 0 <= p < PAGES && Expected(p, k, j) != ABSENT ==> HasTable(s, p))
    && (forall p :: 0 <= p < PAGES && HasTable(s, p) ==> Flat(s, p) == Expected(p, k, j))
  }

  lemma BootedTable(s: Space, words: seq<bv32>, k: nat, j: nat, p: nat)
    requires Booted(s, words, k, j) && p < PAGES
    ensures Booted(WithTable(s, p), words, k, j)
    ensures forall q :: 0 <= q < PAGES && HasTable(s, q) ==> HasTable(WithTable(s, p), q)
  {
    hide EmptyTable, Pointer, Marked, WithTable, Expected;
    WithTableOk(s, p);
    var r := WithTable(s, p);
    WithTableFlat(s, p, p);
    forall q | 0 <= q < PAGES
      ensures HasTable(s, q) ==> HasTable(r, q)
      ensures HasTable(r, q) ==> Pointer(r, q) in r.entries && Flat(r, q) == Expected(q, k, j)
    {
      WithTableFlat(s, p, q);
    }
  }

  lemma BootedOk(s: Space, words: seq<bv32>, k: nat, j: nat)
    requires Booted(s, words, k, j)
    ensures TablesOk(s)
  {
  }

  /** The next page in turn has no frame yet, and there is one for it. */
  lemma BootedEntry(s: Space, words: seq<bv32>, k: nat, j: nat, p: nat)
    requires Booted(s, words, k, j) && p < PAGES && HasTable(s, p) && k + j < 32 * WORDS
    requires (p == k && j == 0) || p == HEAP_PAGE + j
    ensures Pointer(s, p) in s.entries && s.entries[Pointer(s, p)] == ABSENT
    ensures k + j < 32 * |words| && !Marked(words, k + j)
    ensures forall f: nat :: Marked(words, f) <==> f < k + j
  {
  }

  /** Giving the next frame to page `p` moves on to the state `k2`, `j2` that differs at `p` alone. */
  lemma BootedFrame(s: Space, words: seq<bv32>, words': seq<bv32>, k: nat, j: nat, p: nat, k2: nat, j2: nat)
    requires Booted(s, words, k, j) && p < PAGES && HasTable(s, p)
    requires (p == k && j == j2 == 0 && k2 == k + 1 <= HEAP_PAGE) ||
      (p == HEAP_PAGE + j && k2 == k && j2 == j + 1 <= HEAP_PAGES)
    requires |words'| == WORDS && forall g: nat :: Marked(words', g) <==> g == k + j || Marked(words, g)
    ensures Flat(s, p) == ABSENT
    ensures Booted(s.(entries := s.entries[Pointer(s, p) := Entry(true, false, true, k + j)]), words', k2, j2)
  {
    hide Marked;
    var r := s.(entries := s.entries[Pointer(s, p) := Entry(true, false, true, k + j)]);
    forall q | 0 <= q < PAGES && Expected(q, k2, j2) != ABSENT
      ensures HasTable(r, q)
    {
      assert q == p || Expected(q, k, j) != ABSENT;
    }
    forall q | 0 <= q < PAGES && HasTable(r, q)
      ensures Pointer(r, q) in r.entries && Flat(r, q) == Expected(q, k2, j2)
    {
      assert HasTable(s, q) && Pointer(r, q) == Pointer(s, q);
      assert Flat(s, q) == Expected(q, k, j);
      if q != p {
        PointersApart(s, p, q);
        assert Flat(r, q) == Flat(s, q);
      }
    }
    assert TablesOk(r);
  }

  class Paging {
    const words: array<bv32>
    const tables: array<nat>
    /** The page entries by address, of all tables. */
    var entries: map<nat, Entry>
    var placement: nat

    /** `first_frame`; when every frame is taken it returns the number of words, a taken frame. */
    method FirstFrame() returns (f: nat)
      ensures NextFrame(words[..], f)
    {
      hide Mask, Hits;
      var i := 0;
      while i < words.Length
        invariant i <= words.Length
        invariant forall g: nat :: g < 32 * i ==> Marked(words[..], g)
      {
        if words[i] == 0xFFFFFFFF {
          forall k | 0 <= k < 32 ensures Bit(words[i], k) {
            FullWord(k);
          }
        } else {
          var j := 0;
          while j < 32
            invariant j <= 32
            invariant forall k :: 0 <= k < j ==> Bit(words[i], k)
          {
            if !Bit(words[i], j) {
              assert forall g: nat :: 32 * i <= g < 32 * i + j ==> g / 32 == i && Marked(words[..], g);
              assert (i * 32 + j) / 32 == i && !Marked(words[..], i * 32 + j);
              return i * 32 + j;
            }
            j := j + 1;
          }
        }
        assert forall g: nat :: 32 * i <= g < 32 * i + 32 ==> g / 32 == i && Marked(words[..], g);
        i := i + 1;
      }
      f := i;
    }

    method SetFrame(addr: nat)
      requires addr / PAGE / 32 < words.Length
      modifies words
      ensures forall g: nat :: Marked(words[..], g) <==> g == addr / PAGE || Marked(old(words[..]), g)
    {
      hide Mask, Bit, With, Without;
      var frame := addr / PAGE;
      ghost var w := words[..];
      words[frame / 32] := With(words[frame / 32], Mask(frame % 32));
      assert words[..] == w[frame / 32 := With(w[frame / 32], Mask(frame % 32))];
      forall g: nat ensures Marked(words[..], g) <==> g == frame || Marked(w, g) {
        MarkedAfterSet(w, frame, g);
      }
    }

    method ClearFrame(addr: nat)
      requires addr / PAGE / 32 < words.Length
      modifies words
      ensures forall g: nat :: Marked(words[..], g) <==> g != addr / PAGE && Marked(old(words[..]), g)
    {
      hide Mask, Bit, With, Without;
      var frame := addr / PAGE;
      ghost var w := words[..];
      words[frame / 32] := Without(words[frame / 32], Mask(frame % 32));
      assert words[..] == w[frame / 32 := Without(w[frame / 32], Mask(frame % 32))];
      forall g: nat ensures Marked(words[..], g) <==> g != frame && Marked(w, g) {
        MarkedAfterClear(w, frame, g);
      }
    }

    /** `alloc_frame`; its test for "no free frames" is never true. */
    method AllocFrame(page: nat, kernel: bool, writeable: bool)
      requires page in entries && 0 < words.Length
      modifies this`entries, words
      ensures old(entries[page].frame) != 0 ==> entries == old(entries) && words[..] == old(words[..])
      ensures old(entries[page].frame) == 0 ==>
        page in entries && var f := entries[page].frame;
        && entries == old(entries)[page := Entry(true, writeable, !kernel, f)] && NextFrame(old(words[..]), f)
        && (forall g: nat :: Marked(words[..], g) <==> g == f || Marked(old(words[..]), g))
      ensures old(FramesApart(entries, words[..])) ==>
        (FramesApart(entries, words[..]) <==>
           old(entries[page].frame) != 0 || !Full(old(words[..])) || !Taken(old(entries), page, words.Length))
    {
      hide Full, Taken, FramesApart, Marked;
      if entries[page].frame != 0 {
        return;
      }
      ghost var before, w := entries, words[..];
      var index := FirstFrame();
      SetFrame(index * PAGE);
      entries := entries[page := Entry(true, writeable, !kernel, index)];
      if FramesApart(before, w) {
        ApartGiven(before, w, words[..], page, entries[page]);
      }
    }

    /** `free_frame` as meant: the bit of the frame is cleared and the page is no longer present. */
    method FreeFrame(page: nat)
      requires page in entries && FramesApart(entries, words[..])
      modifies this`entries, words
      ensures var f := old(entries)[page].frame;
        && (f == 0 ==> entries == old(entries))
        && (f != 0 ==> entries == old(entries)[page := old(entries)[page].(present := false, frame := 0)])
        && forall g: nat :: Marked(words[..], g) <==> (f == 0 || g != f) && Marked(old(words[..]), g)
      ensures FramesApart(entries, words[..])
    {
      var frame := entries[page].frame;
      if frame == 0 {
        return;
      }
      ClearFrame(frame * PAGE);
      entries := entries[page := entries[page].(present := false, frame := 0)];
    }

    /** `free_frame` as written: the frame number goes to `clear_frame`, which takes an address, and
        the page stays present, so that it shows frame 0 from then on. */
    method FreeFrameAsWritten(page: nat)
      requires page in entries && entries[page].frame / PAGE / 32 < words.Length
      modifies this`entries, words
      ensures entries == old(entries)[page := old(entries)[page].(frame := 0)]
      ensures var f := old(entries)[page].frame;
        forall g: nat :: Marked(words[..], g) <==> (f == 0 || g != f / PAGE) && Marked(old(words[..]), g)
      ensures var f := old(entries)[page].frame;
        old(FramesApart(entries, words[..])) ==>
          (FramesApart(entries, words[..]) <==>
             f == 0 || (PAGE <= f && Marked(old(words[..]), 0)
                        && !Taken(old(entries), page, 0) && !Taken(old(entries), page, f / PAGE)))
    {
      hide Taken, FramesApart, Marked;
      var frame := entries[page].frame;
      if frame == 0 {
        assert entries == entries[page := entries[page].(frame := 0)];
        return;
      }
      ghost var before, w := entries, words[..];
      ClearFrame(frame);
      entries := entries[page := entries[page].(frame := 0)];
      if FramesApart(before, w) {
        ApartFreedAsWritten(before, w, words[..], page);
      }
    }

    /** Freeing any frame below 4096 as written gives frame 0 to the next page that asks, and the
        freed frame to nobody. */
    method ReuseAsWritten(page: nat, other: nat, kernel: bool, writeable: bool)
      requires page in entries && other in entries && other != page && 0 < words.Length
      requires 0 < entries[page].frame < PAGE && entries[other].frame == 0
      modifies this`entries, words
      ensures entries ==
        old(entries)[page := old(entries)[page].(frame := 0)][other := Entry(true, writeable, !kernel, 0)]
      ensures forall g: nat :: Marked(words[..], g) <==> g == 0 || Marked(old(words[..]), g)
    {
      hide Taken, FramesApart, Marked;
      FreeFrameAsWritten(page);
      ghost var w := words[..];
      assert !Marked(w, 0) && !Full(w);
      AllocFrame(other, kernel, writeable);
      assert NextFrame(w, entries[other].frame);
    }

    // -------------------------------------------------------------- the two-level table

    ghost function State(): Space
      reads this, tables
    {
      Space.Space(tables[..], entries, placement)
    }

    /** `kmalloc_ap` before there is a heap. */
    method PlaceAligned(size: nat) returns (addr: nat)
      modifies this`placement
      ensures addr == Place(old(placement), Request(size, true)).addr && placement == addr + size
    {
      placement := AlignUp(placement);
      addr := placement;
      placement := placement + size;
    }

    ghost predicate Separate() {
      (tables as object) != words
    }

    /** `get_page`; 0 is NULL. */
    method GetPage(addr: nat, makeTable: bool) returns (pointer: nat)
      requires Separate() && TablesOk(State()) && addr / PAGE < PAGES
      modifies this`entries, this`placement, tables
      ensures if makeTable || HasTable(old(State()), addr / PAGE)
        then State() == WithTable(old(State()), addr / PAGE) && pointer == Pointer(State(), addr / PAGE) != 0
        else State() == old(State()) && pointer == 0
      ensures pointer != 0 ==>
        pointer == tables[addr / 0x40_0000] + 4 * (addr / 0x1000 % 0x400) && pointer - tables[addr / 0x40_0000] < 0x1000
      ensures var i := addr / 0x40_0000;
        tables[i] == if old(tables[i]) == 0 && makeTable then AlignUp(old(placement)) else old(tables[i])
      ensures words[..] == old(words[..])
      ensures old(FramesApart(entries, words[..])) ==> FramesApart(entries, words[..])
    {
      hide FramesApart, EmptyTable;
      var page := addr / PAGE;
      var index := page / TABLE_PAGES;
      if tables[index] == 0 {
        if !makeTable {
          return 0;
        }
        var table := PlaceAligned(PAGE);
        tables[index] := table;
        if FramesApart(entries, words[..]) { ApartTable(entries, words[..], table); }
        entries := entries + EmptyTable(table);
      }
      pointer := tables[index] + 4 * (page % TABLE_PAGES);
      assert tables[..] == WithTable(old(State()), page).tables;
    }

    // -------------------------------------------------------------- boot

    /** The start of `init_paging`: the bitmap, of as many words as the code zeroes, and the directory. */
    constructor (end: nat)
      requires 0 < end
      ensures Separate() && fresh(words) && fresh(tables) && Booted(State(), words[..], 0, 0)
      ensures FramesApart(entries, words[..])
      ensures placement == AlignUp(end + 512) + 8196
      ensures tables.Length == TABLES && forall x :: 0 <= x < TABLES ==> tables[x] == 0
    {
      words := new bv32[WORDS](_ => 0);
      tables := new nat[TABLES](_ => 0);
      entries := map[];
      placement := AlignUp(end + BITMAP) + DIR_SIZE;
      new;
      forall f: nat ensures !Marked(words[..], f) {
        if f / 32 < WORDS { ZeroWord(f % 32); }
      }
    }

    /** `alloc_frame(get_page(...), false, false)` for the next page in turn. */
    method MapPage(p: nat, ghost k: nat, ghost j: nat, ghost k2: nat, ghost j2: nat)
      requires Separate() && Booted(State(), words[..], k, j) && p < PAGES && k + j < 32 * WORDS
      requires FramesApart(entries, words[..])
      requires (p == k && j == j2 == 0 && k2 == k + 1 <= HEAP_PAGE) ||
        (p == HEAP_PAGE + j && k2 == k && j2 == j + 1 <= HEAP_PAGES)
      modifies this`entries, this`placement, tables, words
      ensures Booted(State(), words[..], k2, j2) && FramesApart(entries, words[..])
      ensures State().tables == WithTable(old(State()), p).tables && placement == WithTable(old(State()), p).placement
    {
      hide Marked, Flat, WithTable, TablesOk, FramesApart;
      BootedTable(State(), words[..], k, j, p);
      WithTableFlat(State(), p, p);
      BootedOk(State(), words[..], k, j);
      var page := GetPage(p * PAGE, true);
      ghost var s, w := State(), words[..];
      BootedEntry(s, w, k, j, p);
      AllocFrame(page, false, false);
      BootedFrame(s, w, words[..], k, j, p, k2, j2);
    }

    /** The first loop: the table of the heap pages, made while the placement allocator still runs. */
    method MakeHeapTables() returns (base: nat)
      requires Separate() && Booted(State(), words[..], 0, 0) && 0 < placement && FramesApart(entries, words[..])
      requires tables.Length == TABLES && forall x :: 0 <= x < TABLES ==> tables[x] == 0
      modifies this`entries, this`placement, tables
      ensures base == AlignUp(old(placement)) + PAGE
      ensures Booted(State(), words[..], 0, 0) && Shape(tables[..], placement, base, 0) &&
        FramesApart(entries, words[..])
    {
      hide Booted, TablesOk, Flat, Pointer, WithTable, FramesApart;
      base := AlignUp(placement) + PAGE;
      var j := 0;
      while j < HEAP_PAGES
        invariant j <= HEAP_PAGES && Booted(State(), words[..], 0, 0) && FramesApart(entries, words[..])
        invariant if j == 0 then State() == old(State()) && tables[..] == old(tables[..])
          else Shape(tables[..], placement, base, 0)
      {
        BootedOk(State(), words[..], 0, 0);
        BootedTable(State(), words[..], 0, 0, HEAP_PAGE + j);
        HeapTable(State(), base, j);
        var _ := GetPage((HEAP_PAGE + j) * PAGE, true);
        j := j + 1;
      }
    }

    /** The second loop ends although the page tables it makes move its own bound. */
    method MapIdentity(base: nat) returns (n: nat)
      requires Separate() && Booted(State(), words[..], 0, 0) && Shape(tables[..], placement, base, 0)
      requires base <= 3835 * PAGE && FramesApart(entries, words[..])
      modifies this`entries, this`placement, tables, words
      ensures Booted(State(), words[..], n, 0) && Shape(tables[..], placement, base, n) &&
        FramesApart(entries, words[..])
      ensures Exits(base, n) && n * PAGE == placement + PAGE && n <= 3840
    {
      hide Booted, TablesOk, Flat, Pointer, WithTable, FramesApart;
      n := 0;
      while n * PAGE < placement + PAGE
        invariant n <= 3840 && n * PAGE <= placement + PAGE && StillBelow(base, n)
        invariant Booted(State(), words[..], n, 0) && Shape(tables[..], placement, base, n)
        invariant FramesApart(entries, words[..])
        decreases 3840 - n
      {
        ShapeStep(State(), base, n);
        MapPage(n, n, 0, n + 1, 0);
        n := n + 1;
      }
    }

    /** The third loop allocates no memory: the table of the heap pages is there. */
    method MapHeap(base: nat, n: nat)
      requires Separate() && Booted(State(), words[..], n, 0) && Shape(tables[..], placement, base, n) && n <= 3840
      requires FramesApart(entries, words[..])
      modifies this`entries, this`placement, tables, words
      ensures Booted(State(), words[..], n, HEAP_PAGES) && FramesApart(entries, words[..])
      ensures placement == old(placement) && tables[..] == old(tables[..])
    {
      hide Booted, TablesOk, Flat, Pointer, WithTable, FramesApart;
      var j := 0;
      while j < HEAP_PAGES
        invariant j <= HEAP_PAGES && Booted(State(), words[..], n, j) && FramesApart(entries, words[..])
        invariant placement == old(placement) && tables[..] == old(tables[..])
      {
        HeapTableThere(State(), base, n, j);
        MapPage(HEAP_PAGE + j, n, j, n, j + 1);
        j := j + 1;
      }
    }
  }

  /** The tables there are once `k` identity pages are mapped, and what they cost. */
  ghost predicate Shape(tables: seq<nat>, placement: nat, base: nat, k: nat) {
    && |tables| == TABLES && base % PAGE == 0 && 0 < base
    && (forall x :: 0 <= x < TABLES ==> (tables[x] != 0 <==> x == HEAP_PAGE / TABLE_PAGES || x < LowTables(k)))
    && placement == base + PAGE * LowTables(k)
  }

  function LowTables(k: nat): nat { (k + 1023) / TABLE_PAGES }

  /** The second loop is still running at every page in front of `n`. */
  ghost predicate StillBelow(base: nat, n: nat) {
    forall m: nat :: m < n ==> m * PAGE < base + PAGE * LowTables(m) + PAGE
  }

  /** The second loop ends with `n`, when the placement pointer was at `base` in front of it. */
  ghost predicate Exits(base: nat, n: nat) {
    StillBelow(base, n) && base + PAGE * LowTables(n) + PAGE <= n * PAGE
  }

  /** The loop ends exactly on its moving bound, and the frames of all boot pages have a cleared
      bit exactly when the placement pointer was at most 3835 pages up. */
  lemma BootFits(base: nat, n: nat)
    requires base % PAGE == 0 && Exits(base, n)
    ensures n * PAGE == base + PAGE * LowTables(n) + PAGE
    ensures n + HEAP_PAGES <= 32 * WORDS <==> base <= 3835 * PAGE
  {
    hide LowTables;
    assert 0 < n && (n - 1) * PAGE < base + PAGE * LowTables(n - 1) + PAGE;
    LowTablesGrow(n);
    assert n == base / PAGE + LowTables(n) + 1;
  }

  /** The pages mapped exceed their tables by 3836 at 3840, and by more behind. */
  lemma LowTablesGrow(n: nat)
    ensures 0 < n ==> LowTables(n - 1) <= LowTables(n)
    ensures n <= 3840 <==> n - LowTables(n) <= 3836
  {
  }

  lemma ShapeStep(s: Space, base: nat, k: nat)
    requires Shape(s.tables, s.placement, base, k) && k < HEAP_PAGE
    ensures var r := WithTable(s, k); Shape(r.tables, r.placement, base, k + 1)
  {
  }

  /** Where boot places the page table of the heap: behind the bitmap and the directory. */
  function HeapTableAt(end: nat): nat {
    AlignUp(AlignUp(end + BITMAP) + DIR_SIZE)
  }

  lemma HeapTable(s: Space, base: nat, j: nat)
    requires j < HEAP_PAGES && 0 < s.placement
    requires if j == 0 then
        && |s.tables| == TABLES && base == AlignUp(s.placement) + PAGE
        && forall x :: 0 <= x < TABLES ==> s.tables[x] == 0
      else Shape(s.tables, s.placement, base, 0)
    ensures var r := WithTable(s, HEAP_PAGE + j); Shape(r.tables, r.placement, base, 0)
  {
  }

  lemma HeapTableThere(s: Space, base: nat, n: nat, j: nat)
    requires Shape(s.tables, s.placement, base, n) && j < HEAP_PAGES
    ensures WithTable(s, HEAP_PAGE + j) == s
  {
  }

  lemma BootedPages(s: Space, r: Space, words: seq<bv32>, n: nat)
    requires Booted(s, words, n, HEAP_PAGES) && r == s.(placement := r.placement) && s.placement <= r.placement
    ensures Booted(r, words, n, HEAP_PAGES)
    ensures forall p :: 0 <= p < n ==>
      HasTable(r, p) && Pointer(r, p) in r.entries && Flat(r, p) == Entry(true, false, true, p)
    ensures forall p :: HEAP_PAGE <= p < HEAP_PAGE + HEAP_PAGES ==>
      HasTable(r, p) && Pointer(r, p) in r.entries && Flat(r, p) == Entry(true, false, true, n + (p - HEAP_PAGE))
  {
    assert forall p :: 0 <= p < PAGES ==> HasTable(r, p) == HasTable(s, p) && Pointer(r, p) == Pointer(s, p);
    forall p | 0 <= p < PAGES && HasTable(r, p)
      ensures Pointer(r, p) in r.entries && Flat(r, p) == Expected(p, n, HEAP_PAGES)
    {
      assert Flat(s, p) == Expected(p, n, HEAP_PAGES);
    }
    assert TablesOk(r);
  }

  /** Boot, under the condition that all the frames it hands out have bits in the part of the
      bitmap that is cleared: every page below `n` is mapped to the frame of its own number, the
      heap pages to the frames behind, and the heap struct placed last lies in identity-mapped memory. */
  method InitPaging(end: nat) returns (paging: Paging, n: nat, heap: nat)
    requires 0 < end && HeapTableAt(end) + PAGE <= 3835 * PAGE
    ensures fresh(paging) && Booted(paging.State(), paging.words[..], n, HEAP_PAGES)
    ensures FramesApart(paging.entries, paging.words[..])
    ensures forall p :: 0 <= p < n ==>
      HasTable(paging.State(), p) && Flat(paging.State(), p) == Entry(true, false, true, p)
    ensures forall p :: HEAP_PAGE <= p < HEAP_PAGE + HEAP_PAGES ==>
      HasTable(paging.State(), p) && Flat(paging.State(), p) == Entry(true, false, true, n + (p - HEAP_PAGE))
    ensures n <= 3840 && HeapTableAt(end) + PAGE <= heap && n * PAGE == heap + PAGE
    ensures paging.placement == heap + HEAP_SIZE <= n * PAGE
  {
    hide Booted, TablesOk, Flat, Pointer, FramesApart;
    paging := new Paging(end);
    var base := paging.MakeHeapTables();
    n := paging.MapIdentity(base);
    paging.MapHeap(base, n);
    heap := paging.placement;
    paging.placement := paging.placement + HEAP_SIZE;
    BootedPages(paging.State().(placement := heap), paging.State(), paging.words[..], n);
  }

  /** After boot page 0 has frame 0, so freeing the frame of any other page as written leaves two
      pages with frame 0. */
  lemma FrameZeroTaken(s: Space, words: seq<bv32>, n: nat, page: nat)
    requires Booted(s, words, n, HEAP_PAGES) && 0 < n && page in s.entries && page != Pointer(s, 0)
    ensures Taken(s.entries, page, 0)
  {
    assert Expected(0, n, HEAP_PAGES) != ABSENT;
    assert HasTable(s, 0) && Flat(s, 0) == s.entries[Pointer(s, 0)];
  }

  lemma ZeroWord(j: nat)
    requires j < 32
    ensures !Bit(0, j)
  {
  }
}
