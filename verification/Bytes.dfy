/** Bytes, 32-bit little-endian words and in-place writes into a byte buffer. */
module Bytes {
  import opened Machine

  type Byte = b: int | 0 <= b < 256

  /** The four bytes an i586 stores for a 32-bit value. */
  function Encode32(v: nat): (r: seq<Byte>)
    requires v < U32
    ensures |r| == 4
  {
    [v % 256, v / 256 % 256, v / 256 / 256 % 256, v / 256 / 256 / 256]
  }

  function Read16(m: seq<Byte>, at: nat): (v: nat)
    requires at + 2 <= |m|
    ensures v < 65536
  {
    m[at] as int + 256 * (m[at + 1] as int)
  }

  function Read32(m: seq<Byte>, at: nat): (v: nat)
    requires at + 4 <= |m|
    ensures v < U32
  {
    m[at] as int + 256 * (m[at + 1] as int) + 65536 * (m[at + 2] as int) + 16777216 * (m[at + 3] as int)
  }

  /** The number that four bytes stand for, the lowest first. */
  function Word(a: int, b: int, c: int, d: int): int {
    a + 0x100 * b + 0x1_0000 * c + 0x100_0000 * d
  }

  /** `m` with `data` stored from offset `at` on. */
  function Write(m: seq<Byte>, at: nat, data: seq<Byte>): (r: seq<Byte>)
    requires at + |data| <= |m|
    ensures |r| == |m|
    ensures r[at..at + |data|] == data
    ensures forall i :: 0 <= i < |m| && !(at <= i < at + |data|) ==> r[i] == m[i]
  {
    m[..at] + data + m[at + |data|..]
  }

  /** Buffers `m` and `n` hold the same bytes from `lo` up to `hi`. */
  ghost predicate Agree(m: seq<Byte>, n: seq<Byte>, lo: int, hi: int) {
    && 0 <= lo && hi <= |m| && hi <= |n|
    && forall i :: lo <= i < hi ==> m[i] == n[i]
  }

  lemma Encode32Decodes(v: nat)
    requires v < U32
    ensures Read32(Encode32(v), 0) == v
  {
  }

  lemma Read32Written(m: seq<Byte>, at: nat, v: nat)
    requires v < U32 && at + 4 <= |m|
    ensures Read32(Write(m, at, Encode32(v)), at) == v
  {
    var d := Encode32(v);
    var r := Write(m, at, d);
    assert forall k :: 0 <= k < 4 ==> r[at + k] == r[at..at + 4][k] == d[k];
    assert r[at] == d[0] && r[at + 1] == d[1] && r[at + 2] == d[2] && r[at + 3] == d[3];
    Encode32Decodes(v);
  }

  lemma Read32Same(m: seq<Byte>, n: seq<Byte>, at: nat)
    requires at + 4 <= |m| && at + 4 <= |n|
    requires forall i :: at <= i < at + 4 ==> m[i] == n[i]
    ensures Read32(m, at) == Read32(n, at)
  {
  }

  /** A slice of a slice. */
  lemma SubSlice(m: seq<Byte>, at: nat, n: nat, lo: nat, hi: nat)
    requires lo <= hi <= n && at + n <= |m|
    ensures m[at..at + n][lo..hi] == m[at + lo..at + hi]
  {
    var a, b := m[at..at + n][lo..hi], m[at + lo..at + hi];
    assert forall i :: 0 <= i < |a| ==> a[i] == b[i];
  }
}
