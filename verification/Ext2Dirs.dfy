/** Directory records and path names of ext2 on values. */
module Ext2Dirs {
  import opened Machine
  import opened Bytes
  import opened CStrings
  import opened Ext2Spec

  // ---------------------------------------------------------------- records

  datatype Dirent = Dirent(inode: nat, name: seq<Byte>)

  datatype Next = Entry(dirent: Dirent, pos: nat) | End | Dead(how: Failure)

  /** `ext2_next_dirent` at position `pos`. */
  function NextAt(f: File, pos: nat): (r: Next)
    requires Readable(f) && pos <= f.size
    ensures r.Entry? ==> pos + READ_SIZE <= r.pos <= f.size
    ensures r.Entry? ==> r.pos < |f.data|
  {
    DirectLimit(f.blockSize);
    match ReadAt(f, pos, READ_SIZE)
    case Failed(how) => Dead(how)
    case Got(head, p) =>
      if |head| != READ_SIZE then End
      else
        var total, len := Read16(head, 4), head[6];
        match ReadAt(f, p, len)
        case Failed(how) => Dead(how)
        case Got(name, q) =>
          if |name| != len then End
          else SkipPadding(f, q, Dirent(Read32(head, 0), name), total, READ_SIZE + len)
  }

  /** The rest of a record of `total` bytes behind its first `behind`, counted in 32 bits. */
  function SkipPadding(f: File, pos: nat, d: Dirent, total: nat, behind: nat): (r: Next)
    requires Readable(f) && pos <= f.size && |f.data| <= U32
    ensures r.Entry? ==> pos <= r.pos <= f.size && (pos < |f.data| ==> r.pos < |f.data|)
  {
    match ReadAt(f, pos, (total - behind) % U32)
    case Failed(how) => Dead(how)
    case Got(_, next) => Entry(d, next)
  }

  lemma ShortPadding(f: File, pos: nat, d: Dirent, total: nat, behind: nat)
    requires Readable(f) && behind <= pos <= f.size && pos < |f.data| <= U32 && total < behind
    ensures SkipPadding(f, pos, d, total, behind) ==
      Dead(if Rem(pos, f.blockSize) + total < behind then Panic else Overrun)
  {
    hide ReadAt, Rem;
    assert (total - behind) % U32 == U32 + total - behind;
    ReadWraps(f, pos, U32 + total - behind);
  }

  lemma FullPadding(f: File, pos: nat, d: Dirent, total: nat, behind: nat)
    requires Readable(f) && pos <= f.size < |f.data| <= U32 && behind <= total < U32 && pos + total - behind < U32
    ensures SkipPadding(f, pos, d, total, behind) == Entry(d, Min(pos + (total - behind), f.size))
  {
    hide ReadAt;
    ReadExact(f, pos, total - behind);
  }

  /** A record that claims to be shorter than its own head and name kills the reader: by the PANIC
      if head or name reach the twelfth block's end, or if the end of the name lies so early in its
      block that the wrapped padding count still fits behind it; else by the overrun. */
  lemma ShortRecord(f: File, pos: nat)
    requires Readable(f) && pos + READ_SIZE <= f.size && pos + READ_SIZE <= |f.data|
    requires Read16(f.data, pos + 4) < READ_SIZE + f.data[pos + 6] && pos + READ_SIZE + f.data[pos + 6] <= f.size
    ensures var total, behind := Read16(f.data, pos + 4), READ_SIZE + f.data[pos + 6];
      NextAt(f, pos) == Dead(
        if |f.data| <= pos + behind || Rem(pos + behind, f.blockSize) + total < behind then Panic else Overrun)
  {
    hide ReadAt, Rem, Read16, Read32, Offset, SkipPadding;
    DirectLimit(f.blockSize);
    var head := f.data[pos..pos + READ_SIZE];
    var total, len: nat := Read16(head, 4), head[6];
    Read16Same(head, f.data, pos);
    var p := pos + READ_SIZE;
    ReadExact(f, pos, READ_SIZE);
    ReadExact(f, p, len);
    if p + len < |f.data| {
      ShortPadding(f, p + len, Dirent(Read32(head, 0), f.data[p..p + len]), total, READ_SIZE + len);
    }
  }

  /** Reading a record, whatever the bytes: it ends where head or name are cut off, dies on a short
      record, and else yields inode and name and goes on behind the record or at the end of the file. */
  lemma NextExact(f: File, pos: nat)
    requires Readable(f) && pos <= f.size < |f.data|
    ensures NextAt(f, pos) ==
      if f.size < pos + 8 || f.size < pos + 8 + f.data[pos + 6] then End
      else
        var total: nat, len: nat := Read16(f.data, pos + 4), f.data[pos + 6];
        if total < 8 + len then Dead(if Rem(pos + 8 + len, f.blockSize) + total < 8 + len then Panic else Overrun)
        else Entry(Dirent(Read32(f.data, pos), f.data[pos + 8..pos + 8 + len]), Min(pos + total, f.size))
  {
    hide ReadAt, Rem, Read16, Read32, Offset, SkipPadding;
    DirectLimit(f.blockSize);
    ReadExact(f, pos, READ_SIZE);
    if pos + 8 <= f.size {
      var head := f.data[pos..pos + READ_SIZE];
      var total, len: nat := Read16(head, 4), head[6];
      Read16Same(head, f.data, pos);
      Read32From(head, f.data, pos);
      var p := pos + READ_SIZE;
      ReadExact(f, p, len);
      if p + len <= f.size {
        var d := Dirent(Read32(head, 0), f.data[p..p + len]);
        if total < 8 + len {
          ShortPadding(f, p + len, d, total, READ_SIZE + len);
        } else {
          FullPadding(f, p + len, d, total, READ_SIZE + len);
        }
      }
    }
  }

  lemma Read32From(m: seq<Byte>, n: seq<Byte>, at: nat)
    requires 4 <= |m| && at + 4 <= |n| && forall i :: 0 <= i < 4 ==> m[i] == n[at + i]
    ensures Read32(m, 0) == Read32(n, at)
  {
    assert n[at + 0] == n[at];
  }

  lemma Read16Same(m: seq<Byte>, n: seq<Byte>, at: nat)
    requires at + 6 <= |n| && 6 <= |m| && m[4] == n[at + 4] && m[5] == n[at + 5]
    ensures Read16(m, 4) == Read16(n, at + 4)
  {
  }

  /** All records from `pos` on, and how the reader dies behind them, if it does. */
  datatype Listing = Listing(entries: seq<Dirent>, failure: Option<Failure>)

  function List(f: File, pos: nat): Listing
    requires Readable(f) && pos <= f.size
    decreases f.size - pos
  {
    match NextAt(f, pos)
    case Dead(how) => Listing([], Some(how))
    case End => Listing([], None)
    case Entry(d, next) =>
      var rest := List(f, next);
      Listing([d] + rest.entries, rest.failure)
  }

  // ---------------------------------------------------------------- the format

  /** A directory record as the format lays it out: head, name, and padding up to its length. */
  datatype Record = Record(inode: nat, kind: Byte, name: seq<Byte>, padding: seq<Byte>)

  ghost predicate WellFormed(r: Record) {
    r.inode < U32 && |r.name| < 256 && READ_SIZE + |r.name| + |r.padding| < 65536
  }

  function Layout(r: Record): (b: seq<Byte>)
    requires WellFormed(r)
    ensures |b| == READ_SIZE + |r.name| + |r.padding|
  {
    var total := READ_SIZE + |r.name| + |r.padding|;
    Encode32(r.inode) + [total % 256, total / 256, |r.name|, r.kind] + r.name + r.padding
  }

  ghost predicate AllWellFormed(rs: seq<Record>) {
    forall r :: r in rs ==> WellFormed(r)
  }

  function LayoutAll(rs: seq<Record>): seq<Byte>
    requires AllWellFormed(rs)
  {
    if rs == [] then [] else Layout(rs[0]) + LayoutAll(rs[1..])
  }

  function Names(rs: seq<Record>): seq<Dirent> {
    if rs == [] then [] else [Dirent(rs[0].inode, rs[0].name)] + Names(rs[1..])
  }

  /** The record of `.` in a root directory, byte by byte. */
  lemma LayoutOfDot()
    ensures Layout(Record(2, 2, [46], [0, 0, 0])) == [2, 0, 0, 0, 12, 0, 1, 2, 46, 0, 0, 0]
  {
  }

  lemma LayoutFields(r: Record)
    requires WellFormed(r)
    ensures var b := Layout(r);
      && Read32(b, 0) == r.inode && Read16(b, 4) == |b| && b[6] == |r.name|
      && b[READ_SIZE..READ_SIZE + |r.name|] == r.name
  {
    hide Encode32, Read32;
    var b := Layout(r);
    Encode32Decodes(r.inode);
    Read32Same(Encode32(r.inode), b, 0);
  }

  /** The fields of a record that lies at `pos` of `data`. */
  lemma FieldsAt(data: seq<Byte>, pos: nat, r: Record)
    requires WellFormed(r) && pos + |Layout(r)| <= |data| && data[pos..pos + |Layout(r)|] == Layout(r)
    ensures var head := data[pos..pos + READ_SIZE];
      && Read32(head, 0) == r.inode && Read16(head, 4) == |Layout(r)| && head[6] == |r.name|
      && data[pos + READ_SIZE..pos + READ_SIZE + |r.name|] == r.name
  {
    hide Read32, Read16, Layout;
    var b, head := Layout(r), data[pos..pos + READ_SIZE];
    LayoutFields(r);
    SubSlice(data, pos, |b|, 0, READ_SIZE);
    SubSlice(data, pos, |b|, READ_SIZE, READ_SIZE + |r.name|);
    assert head == b[..READ_SIZE];
    Read32Same(head, b, 0);
    Read16Same(head, b, 0);
  }

  /** Reading a record that lies at `pos` yields it, and moves behind it. */
  lemma NextReadsRecord(f: File, pos: nat, r: Record)
    requires Readable(f) && f.size < |f.data| && WellFormed(r)
    requires pos + |Layout(r)| <= f.size && f.data[pos..pos + |Layout(r)|] == Layout(r)
    ensures NextAt(f, pos) == Entry(Dirent(r.inode, r.name), pos + |Layout(r)|)
  {
    hide ReadAt, Read32, Read16, Layout, Offset, SkipPadding;
    DirectLimit(f.blockSize);
    FieldsAt(f.data, pos, r);
    var behind := READ_SIZE + |r.name|;
    ReadExact(f, pos, READ_SIZE);
    ReadExact(f, pos + READ_SIZE, |r.name|);
    FullPadding(f, pos + behind, Dirent(r.inode, r.name), |Layout(r)|, behind);
  }

  /** Listing a directory of fewer than twelve blocks that was laid out from records gives the
      records back, in order. */
  lemma {:induction false} ListReadsRecords(f: File, pos: nat, rs: seq<Record>)
    requires Readable(f) && f.size < |f.data| && AllWellFormed(rs)
    requires pos <= f.size && f.data[pos..f.size] == LayoutAll(rs)
    ensures List(f, pos) == Listing(Names(rs), None)
    decreases |rs|
  {
    hide NextAt, Layout, ReadAt;
    if rs == [] {
      NextAtEnd(f);
    } else {
      var n, m := |Layout(rs[0])|, f.size - pos;
      assert |f.data[pos..f.size]| == |Layout(rs[0]) + LayoutAll(rs[1..])|;
      SubSlice(f.data, pos, m, 0, n);
      SubSlice(f.data, pos, m, n, m);
      NextReadsRecord(f, pos, rs[0]);
      ListReadsRecords(f, pos + n, rs[1..]);
    }
  }

  lemma NextAtEnd(f: File)
    requires Readable(f) && f.size < |f.data|
    ensures NextAt(f, f.size) == End
  {
    hide ReadAt, Offset;
    DirectLimit(f.blockSize);
    ReadExact(f, f.size, READ_SIZE);
  }

  // ---------------------------------------------------------------- lookup

  /** The outcome of a lookup: an inode number, 0 when there is none, or the failure of a read. */
  datatype Lookup = At(number: nat) | Lost(how: Failure)

  /** The inode of the first entry called `name`. */
  function FirstNamed(entries: seq<Dirent>, name: seq<Byte>, otherwise: Lookup): (r: Lookup)
    ensures r == otherwise || exists d :: d in entries && CString(d.name) == name && r == At(d.inode)
    ensures (forall d :: d in entries ==> CString(d.name) != name) ==> r == otherwise
  {
    if entries == [] then otherwise
    else if CString(entries[0].name) == name then At(entries[0].inode)
    else FirstNamed(entries[1..], name, otherwise)
  }

  /** The lookup in the records from `pos` on. */
  function FindFrom(f: File, pos: nat, name: seq<Byte>): Lookup
    requires Readable(f) && pos <= f.size
  {
    var l := List(f, pos);
    FirstNamed(l.entries, name, if l.failure.Some? then Lost(l.failure.value) else At(0))
  }

  /** `ext2_find_in_dir`. */
  function Find(fs: Fs, inode: nat, name: seq<Byte>): Lookup
    requires Mounted(fs) && 0 < inode
  {
    OpenedReadable(fs, inode);
    FindFrom(Opened(fs, inode), 0, name)
  }

  /** One turn of the lookup loop. */
  lemma FindStep(f: File, pos: nat, name: seq<Byte>)
    requires Readable(f) && pos <= f.size
    ensures FindFrom(f, pos, name) ==
      match NextAt(f, pos)
      case Dead(how) => Lost(how)
      case End => At(0)
      case Entry(d, next) => if CString(d.name) == name then At(d.inode) else FindFrom(f, next, name)
  {
    hide NextAt;
    match NextAt(f, pos)
    case Dead(_) =>
    case End =>
    case Entry(d, next) =>
      assert ([d] + List(f, next).entries)[1..] == List(f, next).entries;
  }

  /** Position of the first entry called `name`, `|entries|` if there is none. */
  function FirstIndex(entries: seq<Dirent>, name: seq<Byte>): (i: nat)
    ensures i <= |entries|
    ensures forall j :: 0 <= j < i ==> CString(entries[j].name) != name
    ensures i < |entries| ==> CString(entries[i].name) == name
  {
    if entries == [] || CString(entries[0].name) == name then 0 else 1 + FirstIndex(entries[1..], name)
  }

  /** A lookup gives the inode of the first record of the name. It fails exactly when no record
      has the name or the first that has it is unused (inode 0), which hides any later one. */
  lemma {:induction false} NotFoundExact(entries: seq<Dirent>, name: seq<Byte>, otherwise: Lookup)
    ensures var i := FirstIndex(entries, name);
      && FirstNamed(entries, name, otherwise) == (if i < |entries| then At(entries[i].inode) else otherwise)
      && (FirstNamed(entries, name, At(0)) == At(0) <==> i == |entries| || entries[i].inode == 0)
  {
    if entries != [] && CString(entries[0].name) != name {
      NotFoundExact(entries[1..], name, otherwise);
    }
  }

  /** In a directory laid out from records, of fewer than twelve blocks, a lookup gives the first
      record of the name. */
  lemma FindReadsRecords(fs: Fs, inode: nat, rs: seq<Record>, name: seq<Byte>)
    requires Mounted(fs) && 0 < inode && AllWellFormed(rs)
    requires var f := Opened(fs, inode); f.size < |f.data| && f.data[..f.size] == LayoutAll(rs)
    ensures var i := FirstIndex(Names(rs), name);
      Find(fs, inode, name) == if i < |Names(rs)| then At(Names(rs)[i].inode) else At(0)
  {
    hide Opened, LayoutAll, List;
    OpenedReadable(fs, inode);
    var f := Opened(fs, inode);
    assert f.data[0..f.size] == f.data[..f.size];
    ListReadsRecords(f, 0, rs);
    NotFoundExact(Names(rs), name, At(0));
  }

  lemma OpenedReadable(fs: Fs, inode: nat)
    requires Mounted(fs) && 0 < inode
    ensures Readable(Opened(fs, inode))
  {
  }

  // ---------------------------------------------------------------- paths

  /** The parts of a path between its slashes, empty ones included. */
  function Split(path: seq<Byte>): (r: seq<seq<Byte>>)
    ensures r != []
    ensures forall c :: c in r ==> SLASH !in c
  {
    if path == [] then [[]]
    else
      var r := Split(path[1..]);
      if path[0] == SLASH then [[]] + r else [[path[0]] + r[0]] + r[1..]
  }

  function Join(parts: seq<seq<Byte>>): seq<Byte>
    requires parts != []
  {
    if |parts| == 1 then parts[0] else parts[0] + [SLASH] + Join(parts[1..])
  }

  lemma {:induction false} JoinSplit(path: seq<Byte>)
    ensures Join(Split(path)) == path
  {
    if path != [] {
      JoinSplit(path[1..]);
      var r := Split(path[1..]);
      if path[0] == SLASH {
        assert ([[]] + r)[1..] == r;
      } else {
        assert Join([[path[0]] + r[0]] + r[1..]) == [path[0]] + Join(r);
      }
    }
  }

  /** Splitting is the one inverse of joining: parts without slashes come back as they were. */
  lemma {:induction false} SplitJoin(parts: seq<seq<Byte>>)
    requires parts != [] && forall c :: c in parts ==> SLASH !in c
    ensures Split(Join(parts)) == parts
  {
    var path := Join(parts);
    assert path[..|parts[0]|] == parts[0];
    SplitAt(path, |parts[0]|);
    if |parts| > 1 {
      assert path[|parts[0]| + 1..] == Join(parts[1..]);
      SplitJoin(parts[1..]);
    }
  }

  /** Walk the parts one after the other from directory `inode`, up to the first failure. */
  function Walk(fs: Fs, inode: nat, parts: seq<seq<Byte>>): Lookup
    requires Mounted(fs) && 0 < inode && parts != []
    decreases |parts|
  {
    var next := Find(fs, inode, parts[0]);
    if |parts| == 1 || next == At(0) || next.Lost? then next else Walk(fs, next.number, parts[1..])
  }

  /** `ext2_look_up_path` on a C string. */
  function Resolve(fs: Fs, path: seq<Byte>): Lookup
    requires Mounted(fs)
  {
    if path == [] || path[0] != SLASH then At(0) else Walk(fs, ROOT, Split(path[1..]))
  }

  /** Look the names up one in the other, starting with what is found already; 0 and a failure stay. */
  function Follow(fs: Fs, found: Lookup, names: seq<seq<Byte>>): Lookup
    requires Mounted(fs)
    decreases |names|
  {
    if names == [] || found.Lost? || found.number == 0 then found
    else Follow(fs, Find(fs, found.number, names[0]), names[1..])
  }

  /** A path is resolved by following the names between its slashes from inode 2, whatever the
      names; only a path that starts with a slash is resolved at all. */
  lemma ResolveFollows(fs: Fs, names: seq<seq<Byte>>)
    requires Mounted(fs) && names != [] && forall c :: c in names ==> 47 !in c
    ensures Resolve(fs, [47] + Join(names)) == Follow(fs, At(2), names)
  {
    hide Find, Split, Join;
    var path := [47] + Join(names);
    assert path[1..] == Join(names);
    SplitJoin(names);
    WalkFollows(fs, 2, names);
  }

  lemma ResolveRelative(fs: Fs, path: seq<Byte>)
    requires Mounted(fs) && (path == [] || path[0] != 47)
    ensures Resolve(fs, path) == At(0)
  {
  }

  lemma {:induction false} WalkFollows(fs: Fs, inode: nat, names: seq<seq<Byte>>)
    requires Mounted(fs) && 0 < inode && names != []
    ensures Walk(fs, inode, names) == Follow(fs, At(inode), names)
    decreases |names|
  {
    hide Find;
    var next := Find(fs, inode, names[0]);
    if |names| == 1 {
      assert names[1..] == [];
    } else if next.At? && next.number != 0 {
      WalkFollows(fs, next.number, names[1..]);
    }
  }

  lemma {:induction false} SplitAt(path: seq<Byte>, j: nat)
    requires j <= |path| && SLASH !in path[..j]
    ensures j < |path| && path[j] == SLASH ==> Split(path) == [path[..j]] + Split(path[j + 1..])
    ensures j == |path| ==> Split(path) == [path]
  {
    if j > 0 {
      assert SLASH !in path[1..][..j - 1] by { assert path[1..][..j - 1] == path[..j][1..]; }
      assert path[0] == path[..j][0];
      SplitAt(path[1..], j - 1);
      assert path[..j] == [path[0]] + path[1..][..j - 1];
      if j < |path| {
        assert path[1..][j..] == path[j + 1..];
      } else {
        assert path == [path[0]] + path[1..];
      }
    }
  }

  /** One turn of the path loop, with `s[at..j]` the next part. */
  lemma WalkStep(fs: Fs, dir: nat, s: seq<Byte>, at: nat, j: nat)
    requires Mounted(fs) && 0 < dir && at <= j <= |s| && SLASH !in s[at..j]
    ensures j == |s| ==> Walk(fs, dir, Split(s[at..])) == Find(fs, dir, s[at..j])
    ensures j < |s| && s[j] == SLASH ==>
      Walk(fs, dir, Split(s[at..])) ==
        var next := Find(fs, dir, s[at..j]);
        if next == At(0) || next.Lost? then next else Walk(fs, next.number, Split(s[j + 1..]))
  {
    hide Find, Split;
    var rest, n := s[at..], j - at;
    assert rest[..n] == s[at..j];
    SplitAt(rest, n);
    if j < |s| {
      assert rest[n] == s[j];
      assert rest[n + 1..] == s[j + 1..];
      assert ([rest[..n]] + Split(rest[n + 1..]))[1..] == Split(rest[n + 1..]);
    } else {
      assert rest == rest[..n];
    }
  }
}
