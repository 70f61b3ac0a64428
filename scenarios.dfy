/**
 * Clients of the packed array that replay the scenarios of the repository's
 * tests: what a caller can conclude from the contracts alone.
 */
module Scenarios {
  import opened PackedArrays

  /** A new container is empty and not full. */
  method Creation() {
    var a := new PackedArray<int>(10);
    assert a.Len() == 0;
    assert !a.Full() by {
      assert 0 !in a.Contents();
    }
  }

  /** Three appends, then removals: the untouched indices keep their values. */
  method AppendRemove() {
    var a := new PackedArray<int>(15);
    var i1 := a.Append(90);
    var i2 := a.Append(18);
    assert i1 != i2 && a.Contents()[i1] == 90;
    var i3 := a.Append(-80);
    assert i3 != i1 && i3 != i2;
    assert a.Len() == 3;
    assert a.Get(i1) == 90 && a.Get(i2) == 18 && a.Get(i3) == -80;
    RemoveThird(a, i1, i2, i3);
  }

  /** Removing the third index leaves the first two with their values. */
  method RemoveThird(a: PackedArray<int>, i1: nat, i2: nat, i3: nat)
    requires a.Valid() && i1 < a.N && i2 < a.N && i3 < a.N
    requires i1 != i2 && i1 != i3 && i2 != i3
    requires i1 in a.Contents() && i2 in a.Contents() && i3 in a.Contents() && a.size == 3
    requires a.Contents()[i1] == 90 && a.Contents()[i2] == 18
    modifies a, a.indexToEntry, a.entryToIndex, a.buffer
  {
    a.Remove(i3);
    assert a.Len() == 2;
    assert a.Get(i1) == 90 && a.Get(i2) == 18;
    RemoveFirst(a, i1, i2);
  }

  /** Removing the first index as well leaves the second with its value. */
  method RemoveFirst(a: PackedArray<int>, i1: nat, i2: nat)
    requires a.Valid() && i1 < a.N && i2 < a.N
    requires i1 != i2 && i1 in a.Contents() && i2 in a.Contents() && a.size == 2
    requires a.Contents()[i2] == 18
    modifies a, a.indexToEntry, a.entryToIndex, a.buffer
  {
    a.Remove(i1);
    assert a.Len() == 1;
    assert a.Get(i2) == 18;
  }

  /** Writing through the mutable reference of one index leaves the other alone. */
  method References() {
    var a := new PackedArray<int>(15);
    var i1 := a.Append(90);
    var i2 := a.Append(18);
    a.Assign(i2, 80);
    assert a.Get(i2) == 80 && a.Get(i1) == 90;
  }

  /** Without removals, slot `k` of the slice holds the element of index `k`. */
  method Iteration() {
    var a := new PackedArray<int>(15);
    var i1 := a.Append(90);
    var i2 := a.Append(18);
    assert i1 == 0 && i2 == 1;
    var items := a.AsSlice();
    assert |items| == 2 && items[0] == a.Get(0) && items[1] == a.Get(1);
  }

  /** Incrementing every element in place increments the element of every index. */
  method IterationMut() {
    var a := new PackedArray<int>(15);
    var i1 := a.Append(90);
    var i2 := a.Append(18);
    a.MapInPlace(x => x + 1);
    assert a.Get(i1) == 91 && a.Get(i2) == 19;
  }

  /** `set` on a dead index makes it live and grows the container by one; on a live one it only overwrites. */
  method SetDeadAndLive() {
    var a := new PackedArray<int>(4);
    assert !a.Has(3);
    a.Set(3, 7);
    assert a.Len() == 1 && a.Has(3) && a.Get(3) == 7;
    a.Set(3, 8);
    assert a.Len() == 1 && a.Get(3) == 8;
  }

  /** The index freed by `remove` is the one the next `append` hands out again. */
  method RemoveThenAppend(a: PackedArray<int>, x: nat)
    requires a.Valid() && x < a.N && a.Has(x)
    modifies a, a.indexToEntry, a.entryToIndex, a.buffer
  {
    a.Remove(x);
    var i := a.Append(5);
    assert i == x && a.Get(x) == 5;
  }

  /** `set` on an index just removed makes it live again and restores the length; other indices keep their values. */
  method RemoveThenSet(a: PackedArray<int>, x: nat, y: nat)
    requires a.Valid() && x < a.N && y < a.N && x != y && a.Has(x) && a.Has(y)
    modifies a, a.indexToEntry, a.entryToIndex, a.buffer
  {
    ghost var n, v := a.Len(), a.Get(y);
    a.Remove(x);
    assert y in a.Contents() && a.Contents()[y] == v && a.size == n - 1;
    a.Set(x, 5);
    assert a.Len() == n && a.Get(x) == 5 && a.Get(y) == v;
  }
}
