/** The size-ordered index of holes: src/misc/ordered_array.c. */
module OrderedArrays {
  type Comparer<!T> = (T, T) -> bool

  /** Where `item` goes: before the first element that does not compare below it. */
  function InsertPos<T>(c: seq<T>, item: T, less: Comparer<T>): (p: nat)
    ensures p <= |c|
    ensures forall j :: 0 <= j < p ==> less(c[j], item)
    ensures p < |c| ==> !less(c[p], item)
  {
    if c == [] || !less(c[0], item) then 0 else 1 + InsertPos(c[1..], item, less)
  }

  function Inserted<T>(c: seq<T>, item: T, less: Comparer<T>): seq<T> {
    var p := InsertPos(c, item, less);
    c[..p] + [item] + c[p..]
  }

  function Removed<T>(c: seq<T>, i: nat): seq<T>
    requires i < |c|
  {
    c[..i] + c[i + 1..]
  }

  ghost predicate Sorted<T>(c: seq<T>, less: Comparer<T>) {
    forall i, j :: 0 <= i < j < |c| ==> !less(c[j], c[i])
  }

  /** `less` compares keys, as `header_comparer` compares block sizes. */
  ghost predicate ByKey<T(!new)>(less: Comparer<T>, key: T -> int) {
    forall a, b :: less(a, b) <==> key(a) < key(b)
  }

  lemma InsertPosUnique<T>(c: seq<T>, item: T, less: Comparer<T>, p: nat)
    requires p <= |c|
    requires forall j :: 0 <= j < p ==> less(c[j], item)
    requires p < |c| ==> !less(c[p], item)
    ensures InsertPos(c, item, less) == p
  {
    assert !(InsertPos(c, item, less) < p) && !(p < InsertPos(c, item, less));
  }

  lemma InsertedBag<T>(c: seq<T>, item: T, less: Comparer<T>)
    ensures multiset(Inserted(c, item, less)) == multiset(c) + multiset{item}
  {
    var p := InsertPos(c, item, less);
    assert c == c[..p] + c[p..];
  }

  lemma InsertedSorted<T(!new)>(c: seq<T>, item: T, less: Comparer<T>, key: T -> int)
    requires ByKey(less, key) && Sorted(c, less)
    ensures Sorted(Inserted(c, item, less), less)
  {
    hide InsertPos;
    var p := InsertPos(c, item, less);
    var r := Inserted(c, item, less);
    assert forall i :: 0 <= i < p ==> r[i] == c[i];
    assert forall i :: p < i < |r| ==> r[i] == c[i - 1];
    forall i, j | 0 <= i < j < |r|
      ensures !less(r[j], r[i])
    {
      if p < j && i <= p {
        assert key(c[p]) <= key(c[j - 1]);
      }
    }
  }

  lemma RemovedSorted<T>(c: seq<T>, i: nat, less: Comparer<T>)
    requires i < |c| && Sorted(c, less)
    ensures Sorted(Removed(c, i), less)
    ensures multiset(Removed(c, i)) + multiset{c[i]} == multiset(c)
  {
    assert c == c[..i] + [c[i]] + c[i + 1..];
  }

  class OrderedArray {
    const maxSize: nat
    const cells: array<nat>
    var size: nat

    ghost predicate Valid()
      reads this
    {
      size <= maxSize == cells.Length
    }

    function Contents(): seq<nat>
      requires Valid()
      reads this, cells
    {
      cells[..size]
    }

    /** `place_ordered_array`: zeroed storage and no elements. */
    constructor (maxSize: nat)
      ensures Valid() && fresh(cells) && this.maxSize == maxSize && Contents() == []
    {
      this.maxSize := maxSize;
      cells := new nat[maxSize](_ => 0);
      size := 0;
    }

    method Insert(item: nat, less: Comparer<nat>)
      requires Valid() && size < maxSize
      modifies this, cells
      ensures Valid() && size == old(size) + 1
      ensures Contents() == Inserted(old(Contents()), item, less)
    {
      hide InsertPos;
      ghost var c := Contents();
      var i := 0;
      while i < size && less(cells[i], item)
        invariant i <= size
        invariant forall j :: 0 <= j < i ==> less(c[j], item)
      {
        i := i + 1;
      }
      InsertPosUnique(c, item, less, i);
      ghost var p := i;
      if i == size {
        cells[size] := item;
        size := size + 1;
      } else {
        var tmp := cells[i];
        cells[i] := item;
        while i < size
          invariant p <= i <= size == |c|
          invariant forall j :: 0 <= j < p ==> cells[j] == c[j]
          invariant cells[p] == item
          invariant forall j :: p < j <= i ==> cells[j] == c[j - 1]
          invariant forall j :: i < j < size ==> cells[j] == c[j]
          invariant i < size ==> tmp == c[i]
        {
          i := i + 1;
          var tmp2 := cells[i];
          cells[i] := tmp;
          tmp := tmp2;
        }
        size := size + 1;
      }
      assert Contents() == c[..p] + [item] + c[p..];
    }

    method Lookup(i: nat) returns (item: nat)
      requires Valid() && i < size
      ensures item == Contents()[i]
    {
      item := cells[i];
    }

    /** As meant: the source counts `size` up here and copies one cell too many. */
    method Remove(i: nat)
      requires Valid() && i < size
      modifies this, cells
      ensures Valid() && size == old(size) - 1
      ensures Contents() == Removed(old(Contents()), i)
    {
      ghost var c := Contents();
      var k := i;
      while k + 1 < size
        invariant i <= k < size == |c|
        invariant forall j :: 0 <= j < i ==> cells[j] == c[j]
        invariant forall j :: i <= j < k ==> cells[j] == c[j + 1]
        invariant forall j :: k <= j < size ==> cells[j] == c[j]
      {
        cells[k] := cells[k + 1];
        k := k + 1;
      }
      size := size - 1;
      assert Contents() == c[..i] + c[i + 1..];
    }

    /** `ordered_array_remove` as written: every cell from `i` on is overwritten by the next one
        and the count goes up, so the cell behind the end shows twice. */
    method RemoveAsWritten(i: nat)
      requires Valid() && i < size < maxSize
      modifies this, cells
      ensures Valid() && Contents() == Removed(old(Contents()), i) + [old(cells[size]), old(cells[size])]
    {
      ghost var c := cells[..];
      var k := i;
      while k < size
        invariant i <= k <= size == old(size)
        invariant forall j :: 0 <= j < i ==> cells[j] == c[j]
        invariant forall j :: i <= j < k ==> cells[j] == c[j + 1]
        invariant forall j :: k <= j <= size ==> cells[j] == c[j]
      {
        cells[k] := cells[k + 1];
        k := k + 1;
      }
      size := size + 1;
    }
  }
}
