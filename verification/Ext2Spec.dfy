/**
 The ext2 reader on values: blocks, inodes, files, directory records and paths
 (src/fs/ext2.c; sections "Locating an Inode" and "Linked Directory Entry
 Structure" of the ext2 document).
 */
module Ext2Spec {
  import opened Machine
  import opened Bytes

  const SECTOR: nat := 512
  const INODE_SIZE: nat := 128
  const DIRECT: nat := 12
  const ROOT: nat := 2
  const READ_SIZE: nat := 8
  const SLASH: Byte := 47

  /** A mounted file system. `disk` gives the byte at every disk address and `table` the inode
      table block of every group; `spill` is whatever lies behind the sector buffer of `read_inode`. */
  datatype Fs = Fs(disk: nat -> Byte, blockSize: nat, inodesPerGroup: nat, table: nat -> nat, spill: seq<Byte>)

  ghost predicate Mounted(fs: Fs) {
    && fs.blockSize % SECTOR == 0 && SECTOR <= fs.blockSize <= 65536
    && 0 < fs.inodesPerGroup && fs.inodesPerGroup * INODE_SIZE < U32 && fs.blockSize <= |fs.spill|
  }

  // ---------------------------------------------------------------- blocks

  /** `read_abs_sectors`. */
  function Sectors(disk: nat -> Byte, lba: nat, count: nat): (r: seq<Byte>)
    ensures |r| == count * SECTOR
  {
    seq(count * SECTOR, (i: nat) => disk(lba * SECTOR + i))
  }

  /** `read_block`, with its 32-bit product. */
  function BlockBytes(fs: Fs, block: nat): (r: seq<Byte>)
    requires Mounted(fs)
    ensures |r| == fs.blockSize
  {
    Sectors(fs.disk, (block * fs.blockSize) % U32 / SECTOR, fs.blockSize / SECTOR)
  }

  /** Disk bytes from `at` on. */
  function Slice(disk: nat -> Byte, at: nat, n: nat): (r: seq<Byte>)
    ensures |r| == n
  {
    seq(n, (i: nat) => disk(at + i))
  }

  /** Quotient and remainder, as the source takes them of unsigned numbers. */
  function Quot(x: nat, y: nat): (q: nat)
    requires 0 < y
  {
    DivMod(x, y);
    x / y
  }

  function Rem(x: nat, y: nat): (r: nat)
    requires 0 < y
    ensures r < y
    ensures x == Quot(x, y) * y + r
  {
    DivMod(x, y);
    x % y
  }

  lemma DivMod(x: nat, y: nat)
    requires 0 < y
    ensures 0 <= x / y && x == x / y * y + x % y && x % y < y
  {
  }

  lemma MultipleOfSector(block: nat, size: nat)
    requires size % SECTOR == 0
    ensures (block * size) % SECTOR == 0
  {
    var k := size / SECTOR;
    assert block * size == block * k * SECTOR;
  }

  /** A block is read from its disk address in 32 bits, so from its own place whenever that fits. */
  lemma BlockPlace(fs: Fs, block: nat)
    requires Mounted(fs)
    ensures BlockBytes(fs, block) == Slice(fs.disk, (block * fs.blockSize) % 0x1_0000_0000, fs.blockSize)
    ensures block * fs.blockSize < 0x1_0000_0000 ==>
      BlockBytes(fs, block) == Slice(fs.disk, block * fs.blockSize, fs.blockSize)
  {
    MultipleOfSector(block, fs.blockSize);
    SectorsSlice(fs.disk, block * fs.blockSize, fs.blockSize);
  }

  lemma SectorsSlice(disk: nat -> Byte, at: nat, n: nat)
    requires at % SECTOR == 0 && n % SECTOR == 0
    ensures Sectors(disk, at % U32 / SECTOR, n / SECTOR) == Slice(disk, at % U32, n)
  {
    var low := at % U32;
    assert low % SECTOR == 0;
    assert low / SECTOR * SECTOR == low && n / SECTOR * SECTOR == n;
  }

  // ---------------------------------------------------------------- inodes

  datatype Inode = Inode(size: nat, dbp: seq<nat>)

  function ParseInode(b: seq<Byte>): (r: Inode)
    requires |b| == INODE_SIZE
    ensures r.size < U32 && |r.dbp| == DIRECT
  {
    Inode(Read32(b, 4), seq(DIRECT, (i: nat) requires i < DIRECT => Read32(b, 40 + 4 * i)))
  }

  /** Where the fields of an inode lie: the size at byte 4, twelve block numbers from byte 40 on. */
  lemma InodeLayout(b: seq<Byte>, i: nat)
    requires |b| == 128 && i < 12
    ensures ParseInode(b).size == Word(b[4], b[5], b[6], b[7]) && |ParseInode(b).dbp| == 12
    ensures var at := 40 + 4 * i; ParseInode(b).dbp[i] == Word(b[at], b[at + 1], b[at + 2], b[at + 3])
  {
  }

  function Group(fs: Fs, n: nat): nat
    requires Mounted(fs) && 0 < n
  {
    Quot(n - 1, fs.inodesPerGroup)
  }

  function IndexInGroup(fs: Fs, n: nat): nat
    requires Mounted(fs) && 0 < n
  {
    Rem(n - 1, fs.inodesPerGroup)
  }

  function OffsetInBlock(fs: Fs, n: nat): nat
    requires Mounted(fs) && 0 < n
  {
    Rem(IndexInGroup(fs, n) * INODE_SIZE, fs.blockSize)
  }

  function InodeBlock(fs: Fs, n: nat): nat
    requires Mounted(fs) && 0 < n
  {
    fs.table(Group(fs, n)) + Quot(IndexInGroup(fs, n) * INODE_SIZE, fs.blockSize)
  }

  /** The 128 bytes at `off` of a buffer that holds the sector at disk address `at` and is followed by `spill`. */
  function FromSector(disk: nat -> Byte, spill: seq<Byte>, at: nat, off: nat): (r: seq<Byte>)
    requires off + INODE_SIZE <= SECTOR + |spill|
    ensures |r| == INODE_SIZE
  {
    (Sectors(disk, at % U32 / SECTOR, 1) + spill)[off..off + INODE_SIZE]
  }

  lemma InSector(disk: nat -> Byte, spill: seq<Byte>, at: nat, off: nat)
    requires off + INODE_SIZE <= SECTOR && at % SECTOR == 0
    ensures FromSector(disk, spill, at, off) == Slice(disk, at % U32 + off, INODE_SIZE)
  {
    SectorsSlice(disk, at, SECTOR);
  }

  /** The copy depends on the disk alone exactly when it stays inside the sector. */
  lemma SectorExact(disk: nat -> Byte, spill: seq<Byte>, at: nat, off: nat)
    requires off + INODE_SIZE <= |spill| && off % INODE_SIZE == 0
    ensures off <= SECTOR - INODE_SIZE <==>
      forall other: seq<Byte> :: |other| == |spill| ==>
        FromSector(disk, other, at, off) == FromSector(disk, spill, at, off)
  {
    if SECTOR - INODE_SIZE < off {
      var other := spill[off - SECTOR := if spill[off - SECTOR] == 0 then 1 else 0];
      assert FromSector(disk, other, at, off)[0] != FromSector(disk, spill, at, off)[0];
    }
  }

  /** The bytes `read_inode` copies: one sector is fetched, and the copy starts `OffsetInBlock` bytes into it. */
  function InodeBytes(fs: Fs, n: nat): (r: seq<Byte>)
    requires Mounted(fs) && 0 < n
    ensures |r| == INODE_SIZE
  {
    SlotInBlock(fs, n);
    FromSector(fs.disk, fs.spill, InodeBlock(fs, n) * fs.blockSize, OffsetInBlock(fs, n))
  }

  /** A slot never straddles a block, and starts at a multiple of the slot size. */
  lemma SlotInBlock(fs: Fs, n: nat)
    requires Mounted(fs) && 0 < n
    ensures OffsetInBlock(fs, n) + INODE_SIZE <= fs.blockSize && OffsetInBlock(fs, n) % INODE_SIZE == 0
  {
    hide Quot, Rem, IndexInGroup;
    var k := fs.blockSize / INODE_SIZE;
    assert k * INODE_SIZE == fs.blockSize;
    RemOfMultiples(IndexInGroup(fs, n), k);
  }

  lemma RemOfMultiples(i: nat, k: nat)
    requires 0 < k
    ensures Rem(i * INODE_SIZE, k * INODE_SIZE) % INODE_SIZE == 0
    ensures Rem(i * INODE_SIZE, k * INODE_SIZE) + INODE_SIZE <= k * INODE_SIZE
  {
    hide Quot, Rem;
    var q, r := Quot(i * INODE_SIZE, k * INODE_SIZE), Rem(i * INODE_SIZE, k * INODE_SIZE);
    var j := i - q * k;
    assert q * (k * INODE_SIZE) == q * k * INODE_SIZE;
    assert r == j * INODE_SIZE;
  }

  /** The disk address of inode `n`: `table * blockSize + index * 128`. */
  function SlotAddress(fs: Fs, n: nat): nat
    requires Mounted(fs) && 0 < n
  {
    fs.table(Group(fs, n)) * fs.blockSize + IndexInGroup(fs, n) * INODE_SIZE
  }

  /** Inode numbers count from 1, through the groups one after the other. */
  lemma InodeNumber(fs: Fs, n: nat)
    requires Mounted(fs) && 0 < n
    ensures Group(fs, n) * fs.inodesPerGroup + IndexInGroup(fs, n) == n - 1
    ensures IndexInGroup(fs, n) < fs.inodesPerGroup
  {
    hide Quot, Rem;
  }

  /** So inode `i + 1` of group `g` lies at place `i` of the group's table, 128 bytes to each. */
  lemma SlotPlace(fs: Fs, g: nat, i: nat)
    requires Mounted(fs) && i < fs.inodesPerGroup
    ensures SlotAddress(fs, g * fs.inodesPerGroup + i + 1) == fs.table(g) * fs.blockSize + 128 * i
  {
    hide Quot, Rem, Offset;
    var n := g * fs.inodesPerGroup + i + 1;
    InodeNumber(fs, n);
    OffsetIs(g, fs.inodesPerGroup);
    OffsetIs(Group(fs, n), fs.inodesPerGroup);
    SameOffset(g, i, Group(fs, n), IndexInGroup(fs, n), fs.inodesPerGroup);
  }

  /** The first inode is at the start of the first table, and the next of a group follows at 128 bytes. */
  lemma SlotsInOrder(fs: Fs, n: nat)
    requires Mounted(fs) && 0 < n
    ensures SlotAddress(fs, 1) == fs.table(0) * fs.blockSize
    ensures n % fs.inodesPerGroup != 0 ==> SlotAddress(fs, n + 1) == SlotAddress(fs, n) + 128
  {
    hide Quot, Rem, SlotAddress;
    SlotPlace(fs, 0, 0);
    InodeNumber(fs, n);
    var g, i := Group(fs, n), IndexInGroup(fs, n);
    SlotPlace(fs, g, i);
    if i + 1 < fs.inodesPerGroup {
      SlotPlace(fs, g, i + 1);
    } else {
      Distribute(g, 1, fs.inodesPerGroup);
      MultipleOf(g + 1, fs.inodesPerGroup);
    }
  }

  lemma MultipleOf(k: nat, m: nat)
    requires 0 < m
    ensures (k * m) % m == 0
  {
    hide Quot, Rem, Offset;
    OffsetIs(k, m);
    RemOfOffset(k, 0, m);
    RemIs(k * m, m);
  }

  lemma RemIs(x: nat, y: nat)
    requires 0 < y
    ensures Rem(x, y) == x % y
  {
  }

  lemma SlotSplit(fs: Fs, n: nat)
    requires Mounted(fs) && 0 < n
    ensures SlotAddress(fs, n) == InodeBlock(fs, n) * fs.blockSize + OffsetInBlock(fs, n)
  {
    hide Quot, Rem, IndexInGroup, Group;
    Distribute(fs.table(Group(fs, n)), Quot(IndexInGroup(fs, n) * INODE_SIZE, fs.blockSize), fs.blockSize);
  }

  lemma Distribute(a: nat, b: nat, c: nat)
    ensures (a + b) * c == a * c + b * c
  {
  }

  /** What `read_inode` copies depends on the disk alone exactly when the slot lies in the first
      sector of its block; then it is the slot of the inode. */
  lemma InodeExact(fs: Fs, n: nat)
    requires Mounted(fs) && 0 < n
    ensures OffsetInBlock(fs, n) + INODE_SIZE <= |fs.spill|
    ensures OffsetInBlock(fs, n) <= 384 ==>
      InodeBytes(fs, n) == Slice(fs.disk, (InodeBlock(fs, n) * fs.blockSize) % U32 + OffsetInBlock(fs, n), 128)
    ensures OffsetInBlock(fs, n) <= SECTOR - INODE_SIZE && InodeBlock(fs, n) * fs.blockSize < U32 ==>
      InodeBytes(fs, n) == Slice(fs.disk, SlotAddress(fs, n), INODE_SIZE)
    ensures OffsetInBlock(fs, n) <= SECTOR - INODE_SIZE <==>
      forall spill: seq<Byte> :: |spill| == |fs.spill| ==>
        FromSector(fs.disk, spill, InodeBlock(fs, n) * fs.blockSize, OffsetInBlock(fs, n)) == InodeBytes(fs, n)
  {
    hide Quot, Rem, IndexInGroup, InodeBlock, OffsetInBlock, SlotAddress, FromSector;
    SlotInBlock(fs, n);
    SlotSplit(fs, n);
    var at, off := InodeBlock(fs, n) * fs.blockSize, OffsetInBlock(fs, n);
    SectorExact(fs.disk, fs.spill, at, off);
    MultipleOfSector(InodeBlock(fs, n), fs.blockSize);
    if off <= SECTOR - INODE_SIZE {
      InSector(fs.disk, fs.spill, at, off);
    }
  }

  /** Different inodes of one group, or of groups with disjoint tables, have disjoint slots. */
  lemma SlotsDisjoint(fs: Fs, m: nat, n: nat)
    requires Mounted(fs) && 0 < m && 0 < n && m != n
    requires Group(fs, m) != Group(fs, n) ==>
      var size := fs.inodesPerGroup * INODE_SIZE;
      var a, b := fs.table(Group(fs, m)) * fs.blockSize, fs.table(Group(fs, n)) * fs.blockSize;
      a + size <= b || b + size <= a
    ensures SlotAddress(fs, m) + INODE_SIZE <= SlotAddress(fs, n) ||
      SlotAddress(fs, n) + INODE_SIZE <= SlotAddress(fs, m)
  {
    hide Quot, Rem;
  }

  // ---------------------------------------------------------------- files

  /** Where block `k` of a file starts. */
  function Offset(k: nat, blockSize: nat): nat {
    k * blockSize
  }

  lemma OffsetNext(k: nat, blockSize: nat)
    ensures Offset(k + 1, blockSize) == Offset(k, blockSize) + blockSize
  {
  }

  lemma OffsetBefore(j: nat, k: nat, blockSize: nat)
    requires j <= k
    ensures Offset(j, blockSize) <= Offset(k, blockSize)
    ensures j < k && 0 < blockSize ==> Offset(j, blockSize) < Offset(k, blockSize)
  {
  }

  lemma DirectLimit(blockSize: nat)
    requires blockSize <= 65536
    ensures Offset(DIRECT, blockSize) <= 12 * 65536
  {
  }

  /** The position in the block of a position in the file. */
  lemma RemOfOffset(k: nat, c: nat, blockSize: nat)
    requires c < blockSize
    ensures Rem(Offset(k, blockSize) + c, blockSize) == c
  {
    hide Quot, Rem, Offset;
    OffsetIs(k, blockSize);
    var x := Offset(k, blockSize) + c;
    OffsetIs(Quot(x, blockSize), blockSize);
    SameOffset(k, c, Quot(x, blockSize), Rem(x, blockSize), blockSize);
  }

  lemma OffsetIs(k: nat, blockSize: nat)
    ensures Offset(k, blockSize) == k * blockSize
  {
  }

  lemma SameOffset(k: nat, c: nat, q: nat, r: nat, blockSize: nat)
    requires c < blockSize && r < blockSize && Offset(k, blockSize) + c == Offset(q, blockSize) + r
    ensures k == q && c == r
  {
    hide Offset;
    if k < q {
      OffsetBefore(k + 1, q, blockSize);
      OffsetNext(k, blockSize);
    }
    if q < k {
      OffsetBefore(q + 1, k, blockSize);
      OffsetNext(q, blockSize);
    }
  }

  /** The bytes of the first `k` direct blocks. */
  function Blocks(fs: Fs, inode: Inode, k: nat): (r: seq<Byte>)
    requires Mounted(fs) && k <= |inode.dbp|
    ensures |r| == Offset(k, fs.blockSize)
  {
    if k > 0 then OffsetNext(k - 1, fs.blockSize); Blocks(fs, inode, k - 1) + BlockBytes(fs, inode.dbp[k - 1]) else []
  }

  /** An open file as a value: the bytes of its direct blocks, its size and the block size. */
  datatype File = File(data: seq<Byte>, size: nat, blockSize: nat)

  function Opened(fs: Fs, n: nat): (f: File)
    requires Mounted(fs) && 0 < n
    ensures |f.data| == Offset(DIRECT, fs.blockSize) <= 12 * 65536 && f.size < U32 && f.blockSize == fs.blockSize
  {
    var inode := ParseInode(InodeBytes(fs, n));
    File(Blocks(fs, inode, DIRECT), inode.size, fs.blockSize)
  }

  /** Block `j` of a file lies in its bytes at `j * blockSize`. */
  lemma {:induction false} BlockInFile(fs: Fs, inode: Inode, k: nat, j: nat)
    requires Mounted(fs) && j < k <= |inode.dbp|
    ensures Offset(j, fs.blockSize) + fs.blockSize <= Offset(k, fs.blockSize)
    ensures Blocks(fs, inode, k)[Offset(j, fs.blockSize)..Offset(j, fs.blockSize) + fs.blockSize] ==
      BlockBytes(fs, inode.dbp[j])
  {
    hide Offset, BlockBytes;
    OffsetNext(k - 1, fs.blockSize);
    OffsetNext(j, fs.blockSize);
    OffsetBefore(j + 1, k, fs.blockSize);
    if j < k - 1 {
      BlockInFile(fs, inode, k - 1, j);
      var lo := Offset(j, fs.blockSize);
      assert Blocks(fs, inode, k)[lo..lo + fs.blockSize] == Blocks(fs, inode, k - 1)[lo..lo + fs.blockSize];
    }
  }

  /** Opening a file, from the disk up: for an inode in the first sector of its block the size is the
      word at byte 4 of its slot, and block `j` of the file is the disk block that the word at byte
      `40 + 4 * j` names. */
  lemma OpenedReadsDisk(fs: Fs, n: nat, j: nat)
    requires Mounted(fs) && 0 < n && j < 12
    requires OffsetInBlock(fs, n) <= 384 && InodeBlock(fs, n) * fs.blockSize < U32
    ensures var b, f := Slice(fs.disk, SlotAddress(fs, n), 128), Opened(fs, n);
      var at, lo := 40 + 4 * j, Offset(j, fs.blockSize);
      var block := Word(b[at], b[at + 1], b[at + 2], b[at + 3]);
      && f.size == Word(b[4], b[5], b[6], b[7]) && lo + fs.blockSize <= |f.data| && 0 <= block
      && (block * fs.blockSize < U32 ==>
            f.data[lo..lo + fs.blockSize] == Slice(fs.disk, block * fs.blockSize, fs.blockSize))
  {
    hide Quot, Rem, IndexInGroup, InodeBlock, OffsetInBlock, SlotAddress, InodeBytes, Slice, Blocks, BlockBytes, Offset;
    hide ParseInode;
    InodeExact(fs, n);
    var b := InodeBytes(fs, n);
    InodeLayout(b, j);
    var inode := ParseInode(b);
    BlockInFile(fs, inode, DIRECT, j);
    if inode.dbp[j] * fs.blockSize < U32 {
      BlockPlace(fs, inode.dbp[j]);
    }
  }

  /** How many bytes `ext2_read` sets out to copy; the sum is taken in 32 bits. */
  function ReadCount(pos: nat, count: nat, size: nat): (n: nat)
    requires pos <= size
    ensures size < U32 ==> n <= count
  {
    if size < (pos + count) % U32 then size - pos else count
  }

  /** How a read can fail: with the PANIC for indirect blocks, or by copying on behind the block buffer. */
  datatype Failure = Panic | Overrun

  datatype ReadResult = Got(bytes: seq<Byte>, pos: nat) | Failed(how: Failure)

  ghost predicate Readable(f: File) {
    f.size < U32 && 0 < f.blockSize <= 65536 && |f.data| == Offset(DIRECT, f.blockSize)
  }

  /** `ext2_read` on a file value. A count that wraps the sum with the position in the block is
      taken for one that ends inside the block, and is copied out of the one-block buffer; any
      other read is a slice, or the PANIC that meets every read which reaches the end of the
      twelfth block. */
  function ReadAt(f: File, pos: nat, count: nat): (r: ReadResult)
    requires 0 < f.blockSize && pos <= f.size < U32 && |f.data| <= U32
    ensures r.Got? ==> pos <= r.pos <= f.size && |r.bytes| == r.pos - pos && (r.pos < |f.data| || r.pos == pos)
  {
    var n := ReadCount(pos, count, f.size);
    if n == 0 then Got([], pos)
    else if U32 <= Rem(pos, f.blockSize) + n then Failed(Overrun)
    else if |f.data| <= pos + n then Failed(Panic)
    else Got(f.data[pos..pos + n], pos + n)
  }

  /** The same for the number of bytes that is left after the end-of-file check. */
  lemma ReadAtCount(f: File, pos: nat, count: nat, c: nat)
    requires 0 < f.blockSize && pos <= f.size < U32 && |f.data| <= U32 && Rem(pos, f.blockSize) == c
    ensures var n := ReadCount(pos, count, f.size);
      ReadAt(f, pos, count) ==
        if n == 0 then Got([], pos)
        else if U32 <= c + n then Failed(Overrun)
        else if |f.data| <= pos + n then Failed(Panic)
        else Got(f.data[pos..pos + n], pos + n)
  {
    hide Rem;
  }

  function Min(a: nat, b: nat): nat { if a < b then a else b }

  lemma RemBelow(x: nat, y: nat)
    requires 0 < y
    ensures Rem(x, y) <= x
  {
  }

  /** A read whose end fits in 32 bits is the slice of the file up to its end, except that it
      panics exactly when it takes bytes and ends at or behind the twelfth block. */
  lemma ReadExact(f: File, pos: nat, count: nat)
    requires 0 < f.blockSize && pos <= f.size < U32 && |f.data| <= U32 && pos + count < U32
    ensures var e := Min(pos + count, f.size);
      if pos < e && |f.data| <= e then ReadAt(f, pos, count) == Failed(Panic)
      else ReadAt(f, pos, count).Got? && (pos < |f.data| ==> ReadAt(f, pos, count) == Got(f.data[pos..e], e))
  {
    hide Rem;
    RemBelow(pos, f.blockSize);
  }

  /** A read whose end does not fit in 32 bits escapes the end-of-file check. It reaches the PANIC
      exactly when the count still fits behind the position in the block, and else overruns. */
  lemma ReadWraps(f: File, pos: nat, count: nat)
    requires 0 < f.blockSize && pos <= f.size < U32 && |f.data| <= U32 && count < U32 <= pos + count
    ensures ReadAt(f, pos, count) == Failed(if Rem(pos, f.blockSize) + count < U32 then Panic else Overrun)
  {
    hide Rem;
  }

  /** The outputs of a sequence of reads, one after the other. */
  function ReadAll(f: File, pos: nat, counts: seq<nat>): ReadResult
    requires 0 < f.blockSize && pos <= f.size < U32 && |f.data| <= U32
    decreases |counts|
  {
    if counts == [] then Got([], pos)
    else
      match ReadAt(f, pos, counts[0])
      case Failed(how) => Failed(how)
      case Got(bytes, p) =>
        match ReadAll(f, p, counts[1..])
        case Failed(how) => Failed(how)
        case Got(more, q) => Got(bytes + more, q)
  }

  function Sum(counts: seq<nat>): nat {
    if counts == [] then 0 else counts[0] + Sum(counts[1..])
  }

  /** However the counts are split, a file of less than twelve blocks reads as one slice. */
  lemma {:induction false} Chunking(f: File, pos: nat, counts: seq<nat>)
    requires 0 < f.blockSize && pos <= f.size < |f.data| <= U32
    requires forall i :: 0 <= i < |counts| ==> f.size + counts[i] < U32
    ensures var e := Min(pos + Sum(counts), f.size); ReadAll(f, pos, counts) == Got(f.data[pos..e], e)
    decreases |counts|
  {
    hide ReadAt;
    if counts != [] {
      ReadExact(f, pos, counts[0]);
      var p := Min(pos + counts[0], f.size);
      Chunking(f, p, counts[1..]);
      var q := Min(pos + Sum(counts), f.size);
      assert f.data[pos..p] + f.data[p..q] == f.data[pos..q];
    }
  }
}
