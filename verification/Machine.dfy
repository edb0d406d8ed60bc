/** What the modules share: 32-bit words, 4 KiB pages, options and slices. */
module Machine {
  datatype Option<T> = None | Some(value: T)

  const U32: nat := 0x1_0000_0000
  const PAGE: nat := 0x1000

  /** `align_up`: the next page boundary. */
  function AlignUp(x: nat): (r: nat)
    ensures x <= r < x + PAGE && r % PAGE == 0
  {
    if x % PAGE == 0 then x else x - x % PAGE + PAGE
  }

  /** A slice in three parts. */
  lemma SliceParts<T>(s: seq<T>, a: nat, b: nat, c: nat, d: nat)
    requires a <= b <= c <= d <= |s|
    ensures s[a..d] == s[a..b] + s[b..c] + s[c..d]
  {
  }

  lemma JoinSlices<T>(s: seq<T>, a: nat, b: nat, c: nat)
    requires a <= b <= c <= |s|
    ensures s[a..b] + s[b..c] == s[a..c]
  {
  }

  lemma SliceOfOne<T>(s: seq<T>, i: nat)
    requires i < |s|
    ensures s[i..i + 1] == [s[i]]
  {
  }
}
