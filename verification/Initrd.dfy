/** The initial ramdisk: the image writer tools/make_initrd.c and the reader src/fs/initrd.c. */
module Initrd {
  import opened Machine
  import opened Bytes
  import opened CStrings

  const NAME_LENGTH: nat := 128
  const HEADER_SIZE: nat := 136
  const MAX_FILES: nat := 64
  const DATA: nat := 1 + HEADER_SIZE * MAX_FILES

  /** A directory entry on the host: whether it is a regular file, its name and content, and
      the bytes that happen to lie behind the name in the header struct. */
  datatype HostEntry = HostEntry(regular: bool, name: seq<Byte>, content: seq<Byte>, stale: seq<Byte>)

  ghost predicate Nameable(f: HostEntry) {
    0 !in f.name && |f.name| < NAME_LENGTH && |f.name| + 1 + |f.stale| == NAME_LENGTH
  }

  function Regular(entries: seq<HostEntry>): seq<HostEntry> {
    if entries == [] then []
    else (if entries[0].regular then [entries[0]] else []) + Regular(entries[1..])
  }

  // ---------------------------------------------------------------- the image

  /** Where the data of file number `k` starts in the image. */
  function Start(files: seq<HostEntry>, k: nat): nat
    requires k <= |files|
  {
    if k == 0 then DATA else Start(files, k - 1) + |files[k - 1].content|
  }

  function HeaderAt(k: nat): nat { 1 + HEADER_SIZE * k }

  /** A `File_header`; both sizes are 32-bit words. */
  function HeaderBytes(f: HostEntry, start: nat): (r: seq<Byte>)
    requires Nameable(f)
    ensures |r| == HEADER_SIZE
  {
    f.name + [0] + f.stale + Encode32(start % U32) + Encode32(|f.content| % U32)
  }

  /** `part` lies in `data` at `at`; an empty part needs no room. */
  ghost predicate Holds(data: seq<Byte>, at: nat, part: seq<Byte>) {
    part == [] || (at + |part| <= |data| && data[at..at + |part|] == part)
  }

  ghost predicate AllNameable(files: seq<HostEntry>) {
    forall i :: 0 <= i < |files| ==> Nameable(files[i])
  }

  function GivenStart(files: seq<HostEntry>, i: nat, moved: nat, shift: nat): nat
    requires i < |files|
  {
    Start(files, i) + if i < moved then shift else 0
  }

  /** The image holds the header and the data of file `i`; once the header is among the first
      `moved` it gives the start of the data `shift` higher. */
  ghost predicate PackedAt(data: seq<Byte>, files: seq<HostEntry>, i: nat, moved: nat, shift: nat)
    requires AllNameable(files) && i < |files|
  {
    && Holds(data, HeaderAt(i), HeaderBytes(files[i], GivenStart(files, i, moved, shift)))
    && Holds(data, Start(files, i), files[i].content)
  }

  /** The image holds the first `k` files; the headers of the first `moved` of them are shifted. */
  ghost predicate Packed(data: seq<Byte>, files: seq<HostEntry>, k: nat, moved: nat, shift: nat)
    requires AllNameable(files) && k <= |files|
  {
    forall i :: 0 <= i < k ==> PackedAt(data, files, i, moved, shift)
  }

  lemma {:induction false} StartBefore(files: seq<HostEntry>, i: nat, k: nat)
    requires i <= k <= |files|
    ensures DATA <= Start(files, i) <= Start(files, k)
    ensures i < k ==> Start(files, i) + |files[i].content| <= Start(files, k)
    decreases k
  {
    if i < k {
      StartBefore(files, i, k - 1);
    } else if 0 < k {
      StartBefore(files, k - 1, k - 1);
    }
  }

  /** The result of writing `bytes` at `pos`; a gap in front reads as zeros. */
  function Written(data: seq<Byte>, pos: nat, bytes: seq<Byte>): (r: seq<Byte>)
    ensures bytes == [] ==> r == data
    ensures bytes != [] ==>
      |r| == (if |data| < pos + |bytes| then pos + |bytes| else |data|) && r[pos..pos + |bytes|] == bytes
  {
    if bytes == [] then data
    else if |data| <= pos then data + seq(pos - |data|, _ => 0) + bytes
    else if |data| <= pos + |bytes| then data[..pos] + bytes
    else data[..pos] + bytes + data[pos + |bytes|..]
  }

  /** Writing leaves every part outside its range in place. */
  lemma WrittenAround(data: seq<Byte>, pos: nat, bytes: seq<Byte>, at: nat, part: seq<Byte>)
    requires Holds(data, at, part) && (at + |part| <= pos || pos + |bytes| <= at)
    ensures Holds(Written(data, pos, bytes), at, part)
  {
    if part != [] && bytes != [] {
      var r := Written(data, pos, bytes);
      assert forall i :: at <= i < at + |part| ==> r[i] == data[i];
      assert r[at..at + |part|] == data[at..at + |part|];
    }
  }

  lemma WrittenHolds(data: seq<Byte>, pos: nat, bytes: seq<Byte>)
    ensures Holds(Written(data, pos, bytes), pos, bytes)
  {
  }

  // ---------------------------------------------------------------- the writer

  /** A file descriptor with its offset. */
  class OutFile {
    var data: seq<Byte>
    var pos: nat

    constructor ()
      ensures data == [] && pos == 0
    {
      data, pos := [], 0;
    }

    method Seek(to: nat)
      modifies this`pos
      ensures pos == to
    {
      pos := to;
    }

    method Put(bytes: seq<Byte>)
      modifies this
      ensures data == Written(old(data), old(pos), bytes) && pos == old(pos) + |bytes|
    {
      data := Written(data, pos, bytes);
      pos := pos + |bytes|;
    }
  }

  /** `write_file`: the header here, the data at `start`, and back behind the header. */
  method WriteFile(out: OutFile, f: HostEntry, start: nat)
    requires Nameable(f)
    modifies out
    ensures out.data == Written(Written(old(out.data), old(out.pos), HeaderBytes(f, start)), start, f.content)
    ensures out.pos == old(out.pos) + HEADER_SIZE
  {
    out.Put(HeaderBytes(f, start));
    var returnTo := out.pos;
    out.Seek(start);
    out.Put(f.content);
    out.Seek(returnTo);
  }

  /** `write_initrd`. */
  method WriteInitrd(entries: seq<HostEntry>) returns (out: OutFile)
    requires AllNameable(Regular(entries)) && |Regular(entries)| <= MAX_FILES
    ensures var files := Regular(entries);
      && Packed(out.data, files, |files|, 0, 0)
      && 0 < |out.data| <= Start(files, |files|) && out.data[0] == |files|
  {
    hide Packed, Start, Written, HeaderBytes, Regular, Nameable;
    out := new OutFile();
    out.Seek(1);
    var end, numFiles := DATA, 0;
    ghost var files := Regular(entries);
    var n := 0;
    NothingPacked(files);
    assert entries[0..] == entries && files[0..] == files;
    while n < |entries|
      invariant n <= |entries| && numFiles <= |files| && files[numFiles..] == Regular(entries[n..])
      invariant out.pos == HeaderAt(numFiles) && end == Start(files, numFiles)
      invariant Packed(out.data, files, numFiles, 0, 0) && |out.data| <= end && fresh(out)
    {
      var f := entries[n];
      RegularStep(entries, n, files, numFiles);
      n := n + 1;
      if !f.regular {
        continue;
      }
      PackedNext(out.data, files, numFiles);
      StartNext(files, numFiles);
      FileLength(out.data, files, numFiles);
      WriteFile(out, f, end);
      end := end + |f.content|;
      numFiles := numFiles + 1;
    }
    RegularEnd(entries, files, numFiles);
    out.Seek(0);
    PackedCount(out.data, files, numFiles % 256);
    CountWritten(out.data, numFiles);
    StartBefore(files, 0, numFiles);
    out.Put([numFiles % 256]);
  }

  lemma NothingPacked(files: seq<HostEntry>)
    requires AllNameable(files)
    ensures Packed([], files, 0, 0, 0) && Start(files, 0) == DATA
  {
  }

  lemma StartNext(files: seq<HostEntry>, k: nat)
    requires k < |files|
    ensures Start(files, k + 1) == Start(files, k) + |files[k].content|
  {
  }

  /** The image ends where the data of its last file ends, or earlier. */
  lemma FileLength(data: seq<Byte>, files: seq<HostEntry>, k: nat)
    requires AllNameable(files) && k < |files| && k < MAX_FILES && |data| <= Start(files, k)
    ensures var f, s := files[k], Start(files, k);
      |Written(Written(data, HeaderAt(k), HeaderBytes(f, s)), s, f.content)| <= s + |f.content|
  {
    hide Written, HeaderBytes, Start;
    StartBefore(files, k, |files|);
  }

  lemma CountWritten(data: seq<Byte>, n: nat)
    requires n <= MAX_FILES
    ensures |Written(data, 0, [n % 256])| == if data == [] then 1 else |data|
    ensures 0 < |Written(data, 0, [n % 256])| && Written(data, 0, [n % 256])[0] == n
  {
    assert Written(data, 0, [n])[0] == Written(data, 0, [n])[0..1][0];
  }

  lemma RegularStep(entries: seq<HostEntry>, n: nat, files: seq<HostEntry>, k: nat)
    requires n < |entries| && k <= |files| && files[k..] == Regular(entries[n..])
    ensures entries[n].regular ==> k < |files| && files[k] == entries[n] && files[k + 1..] == Regular(entries[n + 1..])
    ensures !entries[n].regular ==> files[k..] == Regular(entries[n + 1..])
  {
    assert entries[n..][1..] == entries[n + 1..];
    if entries[n].regular {
      assert files[k] == files[k..][0];
      assert files[k + 1..] == files[k..][1..] == Regular(entries[n + 1..]);
    }
  }

  lemma RegularEnd(entries: seq<HostEntry>, files: seq<HostEntry>, k: nat)
    requires k <= |files| && files[k..] == Regular(entries[|entries|..])
    ensures k == |files|
  {
    assert |files[k..]| == 0;
  }

  /** A write outside header and data of file `i` keeps both. */
  lemma PackedAround(data: seq<Byte>, files: seq<HostEntry>, i: nat, moved: nat, shift: nat, pos: nat, bytes: seq<Byte>)
    requires AllNameable(files) && i < |files| && PackedAt(data, files, i, moved, shift)
    requires HeaderAt(i) + HEADER_SIZE <= pos || pos + |bytes| <= HeaderAt(i)
    requires Start(files, i) + |files[i].content| <= pos || pos + |bytes| <= Start(files, i)
    ensures PackedAt(Written(data, pos, bytes), files, i, moved, shift)
  {
    hide Written, HeaderBytes, Holds;
    WrittenAround(data, pos, bytes, HeaderAt(i), HeaderBytes(files[i], GivenStart(files, i, moved, shift)));
    WrittenAround(data, pos, bytes, Start(files, i), files[i].content);
  }

  lemma PackedNext(data: seq<Byte>, files: seq<HostEntry>, k: nat)
    requires AllNameable(files) && k < |files| <= MAX_FILES && Packed(data, files, k, 0, 0)
    ensures var f := files[k];
      Packed(Written(Written(data, HeaderAt(k), HeaderBytes(f, Start(files,
        k))), Start(files, k), f.content), files, k + 1, 0, 0)
  {
    hide Written, HeaderBytes, Holds, Start;
    var f := files[k];
    var h, s := HeaderBytes(f, Start(files, k)), Start(files, k);
    var d1 := Written(data, HeaderAt(k), h);
    var d2 := Written(d1, s, f.content);
    StartBefore(files, k, |files|);
    forall i | 0 <= i < k
      ensures PackedAt(d2, files, i, 0, 0)
    {
      StartBefore(files, i, k);
      PackedAround(data, files, i, 0, 0, HeaderAt(k), h);
      PackedAround(d1, files, i, 0, 0, s, f.content);
    }
    WrittenHolds(data, HeaderAt(k), h);
    WrittenAround(d1, s, f.content, HeaderAt(k), h);
    WrittenHolds(d1, s, f.content);
  }

  lemma PackedCount(data: seq<Byte>, files: seq<HostEntry>, count: Byte)
    requires AllNameable(files) && Packed(data, files, |files|, 0, 0)
    ensures Packed(Written(data, 0, [count]), files, |files|, 0, 0)
  {
    hide Written, PackedAt, Start;
    forall i | 0 <= i < |files|
      ensures PackedAt(Written(data, 0, [count]), files, i, 0, 0)
    {
      StartBefore(files, i, |files|);
      PackedAround(data, files, i, 0, 0, 0, [count]);
    }
  }

  /** The header of file number `i` lies in front of the data exactly when `i` is below 64. */
  lemma HeadersBeforeData(i: nat)
    ensures HeaderAt(i) + HEADER_SIZE <= DATA <==> i < MAX_FILES
    ensures MAX_FILES <= i ==> DATA <= HeaderAt(i)
  {
  }

  // ---------------------------------------------------------------- the reader

  datatype Node = Node(name: seq<Byte>, length: nat, inode: nat)

  datatype DirEntry = NoEntry | DirEntry(name: seq<Byte>, inode: nat)

  datatype Found = Nothing | Dev | File(index: nat)

  const DEV: seq<Byte> := [100, 101, 118]

  /** The node `init_initrd` makes for file number `i`. */
  function NodeFor(f: HostEntry, i: nat): Node {
    Node(f.name, |f.content|, i)
  }

  /** The image by its numbers: the count in byte 0, headers of 136 bytes from byte 1 on, with the
      name first, the start at 128 and the length at 132, and the data from byte 8705 on. */
  lemma ImageLayout(files: seq<HostEntry>, i: nat, start: nat)
    requires i < |files| && Nameable(files[i]) && start < U32 && |files[i].content| < U32
    ensures HeaderAt(i) == 1 + 136 * i && Start(files, 0) == 8705
    ensures Start(files, i + 1) == Start(files, i) + |files[i].content|
    ensures var b := HeaderBytes(files[i], start);
      && |b| == 136 && b[..|files[i].name|] == files[i].name && b[|files[i].name|] == 0
      && start == Word(b[128], b[129], b[130], b[131]) && |files[i].content| == Word(b[132], b[133], b[134], b[135])
  {
    hide Encode32, Word;
    WordBytes(start);
    WordBytes(|files[i].content|);
  }

  lemma WordBytes(v: nat)
    requires v < U32
    ensures var b := Encode32(v); v == Word(b[0], b[1], b[2], b[3])
  {
  }

  lemma HeaderFields(f: HostEntry, start: nat)
    requires Nameable(f)
    ensures var b := HeaderBytes(f, start);
      && CString(b[..NAME_LENGTH]) == f.name
      && Read32(b, NAME_LENGTH) == start % U32 && Read32(b, NAME_LENGTH + 4) == |f.content| % U32
  {
    hide Read32, Encode32;
    var b := HeaderBytes(f, start);
    Encode32Decodes(start % U32);
    Encode32Decodes(|f.content| % U32);
    Read32At(Encode32(start % U32), b, NAME_LENGTH);
    Read32At(Encode32(|f.content| % U32), b, NAME_LENGTH + 4);
    assert b[..NAME_LENGTH][|f.name|] == 0;
    assert forall i :: 0 <= i < |f.name| ==> b[..NAME_LENGTH][i] == f.name[i] && f.name[i] in f.name;
    CStringUnique(b[..NAME_LENGTH], |f.name|);
  }

  lemma Read32At(word: seq<Byte>, m: seq<Byte>, at: nat)
    requires |word| == 4 && at + 4 <= |m| && m[at..at + 4] == word
    ensures Read32(m, at) == Read32(word, 0)
  {
    assert m[at] == word[0] && m[at + 1] == word[1] && m[at + 2] == word[2] && m[at + 3] == word[3];
  }

  /** The start of file `i`, rebased, as a 32-bit word. */
  function StartWord(files: seq<HostEntry>, i: nat, shift: nat): (r: seq<Byte>)
    requires i < |files|
    ensures |r| == 4
  {
    Encode32((Start(files, i) + shift) % U32)
  }

  /** Storing a new start in a header leaves the rest of it. */
  lemma HeaderRebased(files: seq<HostEntry>, i: nat, shift: nat)
    requires AllNameable(files) && i < |files|
    ensures var h := HeaderBytes(files[i], GivenStart(files, i, i, shift));
      HeaderBytes(files[i], GivenStart(files, i, i + 1, shift)) ==
        h[..NAME_LENGTH] + StartWord(files, i, shift) + h[NAME_LENGTH + 4..]
  {
    hide Encode32, Start;
  }

  lemma WrittenWithin(data: seq<Byte>, pos: nat, word: seq<Byte>)
    requires word != [] && pos + |word| <= |data|
    ensures Written(data, pos, word) == data[..pos] + word + data[pos + |word|..]
  {
  }

  lemma ReplacedSlice(data: seq<Byte>, at: nat, n: nat, lo: nat, word: seq<Byte>)
    requires lo + |word| <= n && at + n <= |data|
    ensures var r, part := data[..at + lo] + word + data[at + lo + |word|..], data[at..at + n];
      r[at..at + n] == part[..lo] + word + part[lo + |word|..]
  {
    var r, part := data[..at + lo] + word + data[at + lo + |word|..], data[at..at + n];
    var a, b := r[at..at + n], part[..lo] + word + part[lo + |word|..];
    assert |a| == |b| && forall i :: 0 <= i < n ==> a[i] == b[i];
  }

  lemma PartReplaced(data: seq<Byte>, at: nat, part: seq<Byte>, lo: nat, word: seq<Byte>)
    requires Holds(data, at, part) && lo + |word| <= |part|
    ensures Holds(Written(data, at + lo, word), at, part[..lo] + word + part[lo + |word|..])
  {
    hide Written;
    if word != [] {
      WrittenWithin(data, at + lo, word);
      ReplacedSlice(data, at, |part|, lo, word);
    } else {
      assert part[..lo] + word + part[lo + |word|..] == part;
    }
  }

  /** Rebasing the header of file `i` in place touches no other header and no data. */
  lemma PackedRebased(data: seq<Byte>, files: seq<HostEntry>, i: nat, shift: nat)
    requires AllNameable(files) && i < |files| <= MAX_FILES && Packed(data, files, |files|, i, shift)
    ensures Packed(Written(data, HeaderAt(i) + NAME_LENGTH, StartWord(files, i, shift)), files, |files|, i + 1, shift)
  {
    hide Written, StartWord, PackedAt, Start;
    var word := StartWord(files, i, shift);
    var r, m := Written(data, HeaderAt(i) + NAME_LENGTH, word), i + 1;
    forall j | 0 <= j < |files|
      ensures PackedAt(r, files, j, m, shift)
    {
      StartBefore(files, j, |files|);
      if j == i {
        RebasedAt(data, files, i, shift);
      } else {
        PackedAround(data, files, j, i, shift, HeaderAt(i) + NAME_LENGTH, word);
        MovedOther(r, files, j, i, shift);
      }
    }
  }

  lemma MovedOther(data: seq<Byte>, files: seq<HostEntry>, j: nat, i: nat, shift: nat)
    requires AllNameable(files) && j < |files| && j != i && PackedAt(data, files, j, i, shift)
    ensures PackedAt(data, files, j, i + 1, shift)
  {
  }

  lemma RebasedAt(data: seq<Byte>, files: seq<HostEntry>, i: nat, shift: nat)
    requires AllNameable(files) && i < |files| && i < MAX_FILES && PackedAt(data, files, i, i, shift)
    ensures PackedAt(Written(data, HeaderAt(i) + NAME_LENGTH, StartWord(files, i, shift)), files, i, i + 1, shift)
  {
    hide Written, HeaderBytes, Holds, StartWord, Start, GivenStart;
    var word := StartWord(files, i, shift);
    StartBefore(files, i, |files|);
    WrittenAround(data, HeaderAt(i) + NAME_LENGTH, word, Start(files, i), files[i].content);
    HeaderRebased(files, i, shift);
    PartReplaced(data, HeaderAt(i), HeaderBytes(files[i], GivenStart(files, i, i, shift)), NAME_LENGTH, word);
  }

  /** How many bytes `initrd_read` copies; the sum is taken in 32 bits. */
  function ReadCount(offset: nat, size: nat, length: nat): nat {
    if length < offset then 0
    else if length < (offset + size) % U32 then length - offset
    else size
  }

  /** The count stays inside the file exactly when the end of the request fits in 32 bits. */
  lemma ReadCountExact(offset: nat, size: nat, length: nat)
    requires offset <= length < U32 && size < U32
    ensures offset + ReadCount(offset, size, length) <= length <==> offset + size < U32
    ensures offset + size < U32 ==>
      ReadCount(offset, size, length) == if length < offset + size then length - offset else size
  {
  }

  class InitrdFs {
    const mem: array<Byte>
    const location: nat
    var nodes: seq<Node>
    /** The files of the image. */
    ghost const files: seq<HostEntry>

    ghost predicate Valid()
      reads this, mem
    {
      && AllNameable(files) && |files| <= MAX_FILES && location <= mem.Length <= U32
      && location + Start(files, |files|) < U32
      && Packed(mem[location..], files, |files|, |files|, location)
      && |nodes| == |files| && forall i :: 0 <= i < |files| ==> nodes[i] == NodeFor(files[i], i)
    }

    /** `init_initrd` on memory that holds an image at `location`. */
    constructor (mem: array<Byte>, location: nat, ghost files: seq<HostEntry>)
      requires AllNameable(files) && |files| <= MAX_FILES && location < mem.Length <= U32
      requires location + Start(files, |files|) < U32
      requires Packed(mem[location..], files, |files|, 0, location) && mem[location] == |files|
      modifies mem
      ensures Valid() && this.mem == mem && this.location == location && this.files == files
      ensures mem[..location] == old(mem[..location])
      ensures |nodes| == |files|
      ensures forall i :: 0 <= i < |files| ==> nodes[i] == Node(files[i].name, |files[i].content|, i)
    {
      hide Packed, Written, Encode32, Nameable, Start, Read32, CString;
      this.mem := mem;
      this.location := location;
      this.files := files;
      nodes := [];
      new;
      var n := mem[location];
      var i := 0;
      while i < n
        invariant i <= n == |files|
        invariant Packed(mem[location..], files, |files|, i, location)
        invariant mem[..location] == old(mem[..location])
        invariant |nodes| == i && forall j :: 0 <= j < i ==> nodes[j] == NodeFor(files[j], j)
      {
        PackedHeader(mem[location..], files, i, i, location);
        var at := location + HeaderAt(i);
        var name := CString(mem[at..at + NAME_LENGTH]);
        var start := Read32(mem[..], at + NAME_LENGTH);
        var length := Read32(mem[..], at + NAME_LENGTH + 4);
        SameHeader(mem[..], location, HeaderAt(i));
        PackedRebased(mem[location..], files, i, location);
        StartBefore(files, i, |files|);
        Store(at + NAME_LENGTH, (start + location) % U32);
        nodes := nodes + [Node(name, length, i)];
        i := i + 1;
      }
    }

    /** Store a 32-bit word. */
    method Store(at: nat, word: nat)
      requires location <= at && at + 4 <= mem.Length && word < U32
      modifies mem
      ensures mem[..location] == old(mem[..location])
      ensures mem[location..] == Written(old(mem[location..]), at - location, Encode32(word))
    {
      var bytes := Encode32(word);
      forall k | 0 <= k < 4 {
        mem[at + k] := bytes[k];
      }
      WrittenInside(old(mem[location..]), mem[location..], at - location, bytes);
    }

    /** `file_headers[inode]`: start and length. */
    method Header(inode: nat) returns (start: nat, length: nat)
      requires Valid() && inode < |files|
      ensures start == location + Start(files, inode) && length == |files[inode].content| < U32
    {
      hide Packed, Start, Read32, CString, Nameable;
      PackedHeader(mem[location..], files, inode, |files|, location);
      StartBefore(files, inode, |files|);
      var at := location + HeaderAt(inode);
      SameHeader(mem[..], location, HeaderAt(inode));
      start := Read32(mem[..], at + NAME_LENGTH);
      length := Read32(mem[..], at + NAME_LENGTH + 4);
    }

    /** `initrd_read`; `overran` stands for a copy of `n` bytes that leaves the file, which is not made here. */
    method Read(inode: nat, offset: nat, size: nat, buf: array<Byte>) returns (n: nat, overran: bool)
      requires Valid() && inode < |files| && offset < U32 && size < U32 && size <= buf.Length && buf != mem
      modifies buf
      ensures var content := files[inode].content;
        var end := if |content| < offset + size then |content| else offset + size;
        && (overran <==> offset <= |content| && U32 <= offset + size)
        && if overran then |content| < offset + n && buf[..] == old(buf[..])
           else if offset <= |content| then n == end - offset && buf[..n] == content[offset..end]
           else n == 0
      ensures forall k :: n <= k < buf.Length ==> buf[k] == old(buf[k])
    {
      hide Packed, Start, Nameable;
      ghost var content := files[inode].content;
      var start, length := Header(inode);
      n, overran := 0, false;
      if length < offset {
        return;
      }
      ReadCountExact(offset, size, length);
      n := size;
      if length < (offset + size) % U32 {
        n := length - offset;
      }
      if length < offset + n {
        return n, true;
      }
      if n > 0 {
        PackedData(mem[location..], files, inode, |files|, location);
        DataAt(mem[..], location, Start(files, inode), content, offset, n);
        ghost var piece := mem[start + offset..start + offset + n];
        forall k | 0 <= k < n {
          buf[k] := mem[start + offset + k];
        }
        assert buf[..n] == piece;
      }
    }

    /** `initrd_read_dir` on the root and on `/dev`. */
    method ReadDir(atRoot: bool, index: nat) returns (r: DirEntry)
      requires Valid() && index < U32
      ensures r == if atRoot && index == 0 then DirEntry(DEV, 0)
        else if 0 < index <= |files| then DirEntry(files[index - 1].name, index - 1)
        else NoEntry
    {
      hide Packed, Start;
      if atRoot && index == 0 {
        return DirEntry(DEV, 0);
      }
      var i := (index + U32 - 1) % U32;
      if i >= |nodes| {
        return NoEntry;
      }
      return DirEntry(nodes[i].name, nodes[i].inode);
    }

    /** `initrd_find_dir`. */
    method FindDir(atRoot: bool, name: seq<Byte>) returns (r: Found)
      requires Valid() && 0 in name
      ensures var s := CString(name);
        && (atRoot && s == DEV ==> r == Dev)
        && (!(atRoot && s == DEV) ==>
             match r
             case Dev => false
             case Nothing => forall i :: 0 <= i < |files| ==> files[i].name != s
             case File(i) => i < |files| && files[i].name == s && forall j :: 0 <= j < i ==> files[j].name != s)
    {
      hide Packed, Start, CString;
      ghost var s := CString(name);
      if atRoot {
        DevString();
        var same := SameString(name, DEV + [0]);
        if same {
          return Dev;
        }
      }
      var i := 0;
      while i < |nodes|
        invariant i <= |nodes| && forall j :: 0 <= j < i ==> files[j].name != s
      {
        CStringTerminated(nodes[i].name);
        NameString(files[i].name);
        var same := SameString(name, nodes[i].name + [0]);
        if same {
          return File(i);
        }
        i := i + 1;
      }
      return Nothing;
    }
  }

  lemma DevString()
    ensures CString(DEV + [0]) == DEV
  {
    CStringTerminated(DEV);
    NameString(DEV);
  }

  lemma {:induction false} NameString(name: seq<Byte>)
    requires 0 !in name
    ensures CString(name) == name
  {
    if name != [] {
      assert name[0] in name && forall b :: b in name[1..] ==> b in name;
      NameString(name[1..]);
    }
  }

  /** The header of file `i` of a packed image, field by field. */
  lemma PackedHeader(data: seq<Byte>, files: seq<HostEntry>, i: nat, moved: nat, shift: nat)
    requires AllNameable(files) && i < |files| && Packed(data, files, |files|, moved, shift)
    ensures HeaderAt(i) + HEADER_SIZE <= |data|
    ensures var start := GivenStart(files, i, moved, shift);
      var at := HeaderAt(i);
      && CString(data[at..at + NAME_LENGTH]) == files[i].name
      && Read32(data, at + NAME_LENGTH) == start % U32
      && Read32(data, at + NAME_LENGTH + 4) == |files[i].content| % U32
  {
    hide Read32, HeaderBytes, CString, Start;
    assert PackedAt(data, files, i, moved, shift);
    var start := GivenStart(files, i, moved, shift);
    var b := HeaderBytes(files[i], start);
    HeaderFields(files[i], start);
    FieldsAt(data, HeaderAt(i), b);
  }

  lemma PackedData(data: seq<Byte>, files: seq<HostEntry>, i: nat, moved: nat, shift: nat)
    requires AllNameable(files) && i < |files| && Packed(data, files, |files|, moved, shift)
    ensures Holds(data, Start(files, i), files[i].content)
  {
    assert PackedAt(data, files, i, moved, shift);
  }

  lemma FieldsAt(data: seq<Byte>, at: nat, b: seq<Byte>)
    requires |b| == HEADER_SIZE && at + HEADER_SIZE <= |data| && data[at..at + HEADER_SIZE] == b
    ensures data[at..at + NAME_LENGTH] == b[..NAME_LENGTH]
    ensures Read32(data, at + NAME_LENGTH) == Read32(b, NAME_LENGTH)
    ensures Read32(data, at + NAME_LENGTH + 4) == Read32(b, NAME_LENGTH + 4)
  {
    hide Read32;
    SubSlice(data, at, HEADER_SIZE, 0, NAME_LENGTH);
    SubSlice(data, at, HEADER_SIZE, NAME_LENGTH, NAME_LENGTH + 4);
    SubSlice(data, at, HEADER_SIZE, NAME_LENGTH + 4, HEADER_SIZE);
    Read32At(b[NAME_LENGTH..NAME_LENGTH + 4], data, at + NAME_LENGTH);
    Read32At(b[NAME_LENGTH..NAME_LENGTH + 4], b, NAME_LENGTH);
    Read32At(b[NAME_LENGTH + 4..], data, at + NAME_LENGTH + 4);
    Read32At(b[NAME_LENGTH + 4..], b, NAME_LENGTH + 4);
  }

  /** Bytes `offset..offset + n` of a file whose data lies at `at` of the image at `location`. */
  lemma DataAt(m: seq<Byte>, location: nat, at: nat, content: seq<Byte>, offset: nat, n: nat)
    requires location <= |m| && Holds(m[location..], at, content) && 0 < n && offset + n <= |content|
    ensures location + at + |content| <= |m|
    ensures m[location + at + offset..location + at + offset + n] == content[offset..offset + n]
  {
    SubSlice(m[location..], at, |content|, offset, offset + n);
    var lo, hi := location + at + offset, location + at + offset + n;
    assert m[lo..hi] == m[location..][lo - location..hi - location];
  }

  /** Fields read at absolute addresses are those of the image at `location`. */
  lemma SameHeader(m: seq<Byte>, location: nat, at: nat)
    requires location + at + HEADER_SIZE <= |m|
    ensures m[location + at..location + at + NAME_LENGTH] == m[location..][at..at + NAME_LENGTH]
    ensures Read32(m, location + at + NAME_LENGTH) == Read32(m[location..], at + NAME_LENGTH)
    ensures Read32(m, location + at + NAME_LENGTH + 4) == Read32(m[location..], at + NAME_LENGTH + 4)
  {
  }

  lemma WrittenInside(data: seq<Byte>, r: seq<Byte>, at: nat, bytes: seq<Byte>)
    requires bytes != [] && at + |bytes| <= |data| == |r|
    requires forall i :: 0 <= i < |r| ==> r[i] == if at <= i < at + |bytes| then bytes[i - at] else data[i]
    ensures r == Written(data, at, bytes)
  {
  }

  /** An image that the writer made, loaded at any address of a larger memory, is what the reader asks for. */
  lemma Loaded(image: seq<Byte>, m: seq<Byte>, location: nat, files: seq<HostEntry>)
    requires AllNameable(files) && Packed(image, files, |files|, 0, 0) && 0 < |image| && image[0] == |files|
    requires location + |image| <= |m| && m[location..location + |image|] == image
    ensures Packed(m[location..], files, |files|, 0, location) && m[location] == |files|
  {
    hide HeaderBytes, Start, Holds;
    var d, moved := m[location..], 0;
    assert d[..|image|] == image;
    forall i | 0 <= i < |files|
      ensures PackedAt(d, files, i, moved, location)
    {
      assert PackedAt(image, files, i, 0, 0);
      HoldsLonger(image, d, HeaderAt(i), HeaderBytes(files[i], Start(files, i)));
      HoldsLonger(image, d, Start(files, i), files[i].content);
    }
    assert m[location] == m[location..location + |image|][0];
  }

  lemma HoldsLonger(data: seq<Byte>, longer: seq<Byte>, at: nat, part: seq<Byte>)
    requires Holds(data, at, part) && |data| <= |longer| && longer[..|data|] == data
    ensures Holds(longer, at, part)
  {
    if part != [] {
      assert longer[at..at + |part|] == longer[..|data|][at..at + |part|];
    }
  }

  /** The round trip: writer, loader and `init_initrd` one after the other give a file system
      whose reads are slices of the files that went in. */
  method RoundTrip(entries: seq<HostEntry>, location: nat, before: seq<Byte>, behind: seq<Byte>) returns (fs: InitrdFs)
    requires AllNameable(Regular(entries)) && |Regular(entries)| <= MAX_FILES
    requires |before| == location && location + Start(Regular(entries), |Regular(entries)|) + |behind| < U32
    ensures fs.Valid() && fs.files == Regular(entries) && fs.location == location
  {
    hide Packed, Start, AllNameable;
    var out := WriteInitrd(entries);
    var bytes := before + out.data + behind;
    ghost var files := Regular(entries);
    var mem := new Byte[|bytes|]((i: nat) requires i < |bytes| => bytes[i]);
    assert mem[..] == bytes;
    Loaded(out.data, mem[..], location, files);
    fs := new InitrdFs(mem, location, files);
  }
}
