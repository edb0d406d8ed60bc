/** The open file, the directory iterator and the path walker of src/fs/ext2.c. */
module Ext2 {
  import opened Machine
  import opened Bytes
  import opened CStrings
  import opened Ext2Spec
  import opened Ext2Dirs

  /** The test of `ext2_read` for the end of the block, a sum in 32 bits. */
  predicate EndsBlock(pos: nat, count: nat, blockSize: nat) {
    (pos + count) % U32 >= blockSize
  }

  lemma EndsBlockExact(pos: nat, count: nat, blockSize: nat)
    requires pos < blockSize <= 65536 && count < U32
    ensures EndsBlock(pos, count, blockSize) <==> blockSize <= pos + count < U32
  {
  }

  // Ext2_file: a cursor into the file with one block buffered.
  class Ext2File {
    const fs: Fs
    const inode: Inode
    const buf: array<Byte>
    var pos: nat
    var blockIndex: nat
    var currBlockPos: nat

    /** The cursor agrees with the plain position, and the buffer holds its block. */
    ghost predicate Positioned()
      reads this, buf
    {
      && Mounted(fs) && |inode.dbp| == DIRECT && inode.size < U32
      && blockIndex < DIRECT && currBlockPos < fs.blockSize
      && pos == Offset(blockIndex, fs.blockSize) + currBlockPos
      && buf.Length == fs.blockSize && buf[..] == BlockBytes(fs, inode.dbp[blockIndex])
    }

    ghost predicate Valid()
      reads this, buf
    {
      Positioned() && pos <= inode.size
    }

    ghost function Contents(): File
      requires Mounted(fs) && |inode.dbp| == DIRECT
    {
      File(Blocks(fs, inode, DIRECT), inode.size, fs.blockSize)
    }

    /** `ext2_open_inode`. */
    constructor (fs: Fs, inodeNum: nat)
      requires Mounted(fs) && 0 < inodeNum
      ensures Valid() && fresh(buf) && this.fs == fs && pos == 0
      ensures Contents() == Opened(fs, inodeNum)
    {
      this.fs := fs;
      var found := ParseInode(InodeBytes(fs, inodeNum));
      inode := found;
      pos, blockIndex, currBlockPos := 0, 0, 0;
      var first := BlockBytes(fs, found.dbp[0]);
      buf := new Byte[fs.blockSize]((i: nat) requires i < |first| => first[i]);
      new;
      assert buf[..] == first;
    }

    /** `read_block` into the buffer. */
    method LoadBlock(k: nat)
      requires Mounted(fs) && k < |inode.dbp| && buf.Length == fs.blockSize
      modifies buf
      ensures buf[..] == BlockBytes(fs, inode.dbp[k])
    {
      var bytes := BlockBytes(fs, inode.dbp[k]);
      forall i | 0 <= i < buf.Length {
        buf[i] := bytes[i];
      }
      assert buf[..] == bytes;
    }

    /** Copy from the buffer: what is copied is the file at the cursor. */
    method CopyOut(out: array<Byte>, at: nat, n: nat)
      requires Positioned() && out != buf && at + n <= out.Length && currBlockPos + n <= fs.blockSize
      modifies out
      ensures pos + n <= |Contents().data|
      ensures out[..at + n] == old(out[..at]) + Contents().data[pos..pos + n]
      ensures forall i :: at + n <= i < out.Length ==> out[i] == old(out[i])
    {
      hide Blocks, BlockBytes, Offset;
      ghost var data, lo := Contents().data, Offset(blockIndex, fs.blockSize);
      BlockInFile(fs, inode, DIRECT, blockIndex);
      SubSlice(data, lo, fs.blockSize, currBlockPos, currBlockPos + n);
      ghost var piece := buf[..][currBlockPos..currBlockPos + n];
      assert piece == data[pos..pos + n];
      forall i | 0 <= i < n {
        out[at + i] := buf[currBlockPos + i];
      }
      assert forall i :: 0 <= i < n ==> out[at + i] == piece[i];
      assert out[..at + n] == old(out[..at]) + piece;
    }

    /** Move the cursor behind `n` bytes of the block, into the next one at its end. */
    method Advance(n: nat) returns (panic: bool)
      requires Positioned() && currBlockPos + n <= fs.blockSize
      modifies this, buf
      ensures pos == old(pos) + n
      ensures panic == (|Contents().data| <= pos)
      ensures !panic ==> Positioned()
      ensures !panic && old(currBlockPos) + n == fs.blockSize ==> currBlockPos == 0
    {
      hide Blocks, BlockBytes, Offset;
      OffsetNext(blockIndex, fs.blockSize);
      OffsetBefore(blockIndex + 1, DIRECT, fs.blockSize);
      currBlockPos := currBlockPos + n;
      pos := pos + n;
      panic := false;
      if currBlockPos == fs.blockSize {
        currBlockPos := 0;
        blockIndex := blockIndex + 1;
        if blockIndex >= DIRECT {
          return true;
        }
        LoadBlock(blockIndex);
      }
    }

    /** One turn of the loop of `ext2_read`: what is left of the block, or of the request if it ends inside. */
    method CopyTurn(out: array<Byte>, at: nat, left: nat) returns (took: nat, failure: Option<Failure>)
      requires Positioned() && out != buf && 0 < left < U32 && at + left <= out.Length
      modifies this, buf, out
      ensures took == Min(left, fs.blockSize - old(currBlockPos))
      ensures failure == if U32 <= old(currBlockPos) + left then Some(Overrun)
        else if |Contents().data| <= old(pos) + took then Some(Panic)
        else None
      ensures failure.None? ==> Positioned() && pos == old(pos) + took && (took < left ==> currBlockPos == 0)
      ensures failure.None? ==> out[..at + took] == old(out[..at]) + Contents().data[old(pos)..pos]
      ensures forall i :: at + took <= i < out.Length ==> out[i] == old(out[i])
    {
      hide Blocks, BlockBytes, Offset, EndsBlock;
      EndsBlockExact(currBlockPos, left, fs.blockSize);
      took := if left < fs.blockSize - currBlockPos then left else fs.blockSize - currBlockPos;
      var newBlock := EndsBlock(currBlockPos, left, fs.blockSize);
      if !newBlock && currBlockPos + left > fs.blockSize {
        return took, Some(Overrun);
      }
      CopyOut(out, at, took);
      var panic := Advance(took);
      failure := if panic then Some(Panic) else None;
    }

    /** The loop of `ext2_read`. */
    method Copy(out: array<Byte>, n: nat) returns (failure: Option<Failure>)
      requires Positioned() && out != buf && n <= out.Length && n < U32
      modifies this, buf, out
      ensures failure == if n == 0 then None
        else if U32 <= old(currBlockPos) + n then Some(Overrun)
        else if |Contents().data| <= old(pos) + n then Some(Panic)
        else None
      ensures failure.None? ==> Positioned() && pos == old(pos) + n <= |Contents().data|
      ensures failure.None? ==> out[..n] == Contents().data[old(pos)..pos]
      ensures failure.None? ==> forall i :: n <= i < out.Length ==> out[i] == old(out[i])
    {
      hide Blocks, BlockBytes, Offset;
      ghost var p0, c0, data := pos, currBlockPos, Contents().data;
      BlockInFile(fs, inode, DIRECT, blockIndex);
      var left := n;
      while left > 0
        invariant 0 <= left <= n
        invariant Positioned() && pos == p0 + (n - left) && pos < |data|
        invariant (left == n && currBlockPos == c0) || (c0 + n < U32 && (left == 0 || currBlockPos == 0))
        invariant out[..n - left] == data[p0..pos]
        invariant forall i :: n <= i < out.Length ==> out[i] == old(out[i])
      {
        ghost var p := pos;
        var took;
        took, failure := CopyTurn(out, n - left, left);
        if failure.Some? {
          return;
        }
        left := left - took;
        BlockInFile(fs, inode, DIRECT, blockIndex);
        JoinSlices(data, p0, p, pos);
      }
      return None;
    }

    /** `ext2_read`. */
    method Read(out: array<Byte>, count: nat) returns (n: nat, failure: Option<Failure>)
      requires Valid() && out != buf && count < U32 && count <= out.Length
      modifies this, buf, out
      ensures |Contents().data| <= U32
      ensures failure.Some? ==> ReadAt(Contents(), old(pos), count) == Failed(failure.value)
      ensures failure.None? ==> Valid() && n <= count && Got(out[..n], pos) == ReadAt(Contents(), old(pos), count)
      ensures failure.None? ==> forall i :: n <= i < out.Length ==> out[i] == old(out[i])
    {
      hide Blocks, BlockBytes, Offset, Rem, ReadAt;
      DirectLimit(fs.blockSize);
      RemOfOffset(blockIndex, currBlockPos, fs.blockSize);
      ReadAtCount(Contents(), pos, count, currBlockPos);
      n := count;
      if inode.size < (pos + count) % U32 {
        n := inode.size - pos;
      }
      failure := Copy(out, n);
    }

    lemma ContentsReadable()
      requires Mounted(fs) && |inode.dbp| == DIRECT && inode.size < U32
      ensures Readable(Contents())
    {
      DirectLimit(fs.blockSize);
    }

    /** The end of `ext2_next_dirent`: read up to the next record. */
    method ReadPadding(d: Dirent, total: nat, behind: nat) returns (r: Next)
      requires Valid()
      modifies this, buf
      ensures Readable(Contents()) && |Contents().data| <= U32
      ensures r == SkipPadding(Contents(), old(pos), d, total, behind)
      ensures r.Entry? ==> Valid() && pos == r.pos
    {
      ContentsReadable();
      hide ReadAt, Blocks, BlockBytes, Offset, Positioned;
      var left := (total - behind) % U32;
      var dummy := new Byte[left];
      var _, failure := Read(dummy, left);
      return if failure.Some? then Dead(failure.value) else Entry(d, pos);
    }

    /** `ext2_next_dirent`. */
    method NextDirent() returns (r: Next)
      requires Valid()
      modifies this, buf
      ensures Readable(Contents()) && r == NextAt(Contents(), old(pos))
      ensures r.Entry? ==> Valid() && pos == r.pos
    {
      ContentsReadable();
      hide ReadAt, Blocks, BlockBytes, Offset, Positioned, SkipPadding, Read16, Read32;
      var head := new Byte[READ_SIZE];
      var n, failure := Read(head, READ_SIZE);
      if failure.Some? {
        return Dead(failure.value);
      }
      assert head[..n] == head[..] || n < READ_SIZE;
      if n != READ_SIZE {
        return End;
      }
      var total, len := Read16(head[..], 4), head[6];
      var name := new Byte[len];
      n, failure := Read(name, len);
      if failure.Some? {
        return Dead(failure.value);
      }
      if n != len {
        return End;
      }
      assert name[..n] == name[..];
      r := ReadPadding(Dirent(Read32(head[..], 0), name[..]), total, READ_SIZE + len);
    }
  }

  /** `ext2_find_in_dir`; `name` is a C string with its NUL. */
  method FindInDir(fs: Fs, inode: nat, name: seq<Byte>) returns (r: Lookup)
    requires Mounted(fs) && 0 < inode && 0 in name
    ensures r == Find(fs, inode, CString(name))
  {
    hide NextAt, List, Opened, Blocks, BlockBytes, Offset;
    OpenedReadable(fs, inode);
    var dir := new Ext2File(fs, inode);
    ghost var f, wanted := Opened(fs, inode), CString(name);
    while true
      invariant dir.Valid() && dir.Contents() == f && fresh(dir) && fresh(dir.buf)
      invariant FindFrom(f, dir.pos, wanted) == Find(fs, inode, wanted)
      decreases f.size - dir.pos
    {
      FindStep(f, dir.pos, wanted);
      var step := dir.NextDirent();
      match step
      case Dead(how) => return Lost(how);
      case End => return At(0);
      case Entry(d, _) =>
        CStringTerminated(d.name);
        var same := SameString(d.name + [0], name);
        if same {
          return At(d.inode);
        }
    }
  }

  /** The end of the part of `path` that starts at `at`. */
  method PartEnd(path: array<Byte>, at: nat, ghost s: seq<Byte>) returns (j: nat)
    requires s == CString(path[..]) && at <= |s| < path.Length && path[|s|] == 0
    ensures at <= j <= |s| && SLASH !in s[at..j] && (j < |s| ==> s[j] == SLASH)
    ensures j < |s| <==> path[j] != 0
  {
    j := at;
    while path[j] != SLASH && path[j] != 0
      invariant at <= j <= |s| && SLASH !in s[at..j]
      decreases |s| - j
    {
      assert s[at..j + 1] == s[at..j] + [s[j]];
      j := j + 1;
    }
    assert j < |s| ==> s[j] in s;
  }

  /** Cut at `j`, the rest of the path from `at` on reads as the part `s[at..j]`. */
  lemma CutAt(full: seq<Byte>, cut: seq<Byte>, at: nat, j: nat)
    requires at <= j < |full| == |cut| && cut == full[j := 0] && j <= |CString(full)|
    ensures 0 in cut[at..] && CString(cut[at..]) == CString(full)[at..j]
  {
    var s := CString(full);
    assert forall i :: 0 <= i < j - at ==> cut[at..][i] == s[at + i] && s[at + i] in s;
    assert cut[at..][j - at] == 0;
    CStringUnique(cut[at..], j - at);
    assert cut[at..][..j - at] == s[at..j];
  }

  /** `ext2_look_up_path`: the path is cut at each slash in turn and mended again. */
  method LookUpPath(fs: Fs, path: array<Byte>) returns (r: Lookup)
    requires Mounted(fs) && 0 in path[..]
    modifies path
    ensures r == Resolve(fs, CString(old(path[..])))
    ensures old(path[0]) != 47 ==> r == At(0)
    ensures r.At? ==> path[..] == old(path[..])
  {
    hide Find, Split, Walk, CString;
    ghost var full := path[..];
    ghost var s := CString(full);
    CStringFits(full);
    assert s != [] ==> s[0] == path[0];
    if path[0] != SLASH {
      return At(0);
    }
    var at, dir := 1, ROOT;
    assert Resolve(fs, s) == Walk(fs, dir, Split(s[at..]));
    while true
      invariant path[..] == full && 1 <= at <= |s| && 0 < dir
      invariant Walk(fs, dir, Split(s[at..])) == Resolve(fs, s)
      decreases |s| - at
    {
      var j := PartEnd(path, at, s);
      WalkStep(fs, dir, s, at, j);
      CutAt(full, full[j := 0], at, j);
      if path[j] == 0 {
        assert full[j := 0] == full;
        break;
      }
      path[j] := 0;
      assert path[..] == full[j := 0] && path[at..] == path[..][at..];
      r := FindInDir(fs, dir, path[at..]);
      if r.Lost? {
        return;
      }
      path[j] := SLASH;
      assert path[..] == full;
      if r.number == 0 {
        return;
      }
      at, dir := j + 1, r.number;
    }
    r := FindInDir(fs, dir, path[at..]);
  }
}
