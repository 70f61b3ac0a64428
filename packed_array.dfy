/**
 * A fixed-capacity packed array ("sparse set"): the live elements sit packed in
 * the prefix `[0, size)` of a buffer of `N` cells, while callers address them
 * through external indices in `[0, N)` that stay valid when other elements are
 * removed. Two tables translate between the two: `indexToEntry` maps an external
 * index to its slot, `entryToIndex` maps a slot back to its external index.
 */
module PackedArrays {
  import opened IndexMaps

  class PackedArray<T(0)> {
    /** The capacity, fixed at construction. */
    const N: nat
    /** The number of live elements. */
    var size: nat
    /** External index to slot. */
    const indexToEntry: array<nat>
    /** Slot to external index. */
    const entryToIndex: array<nat>
    /** Storage for `N` elements, of which only the prefix `[0, size)` is meaningful. */
    const buffer: array<T>

    /**
     * The object invariant: three distinct arrays of length `N`, `size` within
     * the capacity, and the two tables mutually inverse permutations of `[0, N)`.
     */
    ghost predicate Valid()
      reads this, indexToEntry, entryToIndex
    {
      indexToEntry.Length == N && entryToIndex.Length == N && buffer.Length == N
      && indexToEntry != entryToIndex
      && buffer as object != indexToEntry && buffer as object != entryToIndex
      && size <= N
      && Inverse(indexToEntry[..], entryToIndex[..])
    }

    /** The abstract value: each live external index mapped to its element. */
    ghost function Contents(): map<nat, T>
      reads this, indexToEntry, buffer
      requires size <= buffer.Length
    {
      Live(indexToEntry[..], size, buffer[..])
    }

    /** An empty container whose tables are both the identity. */
    constructor (n: nat)
      ensures Valid() && N == n && size == 0
      ensures Contents() == map[]
      ensures indexToEntry[..] == Identity(n) && entryToIndex[..] == Identity(n)
      ensures fresh(indexToEntry) && fresh(entryToIndex) && fresh(buffer)
    {
      var fwd := new nat[n];
      var bwd := new nat[n];
      var i := 0;
      while i < n
        invariant i <= n
        invariant forall k :: 0 <= k < i ==> fwd[k] == k && bwd[k] == k
      {
        fwd[i], bwd[i] := i, i;
        i := i + 1;
      }
      N, size := n, 0;
      indexToEntry, entryToIndex := fwd, bwd;
      buffer := new T[n];
      new;
      assert indexToEntry[..] == Identity(n) && entryToIndex[..] == Identity(n);
      IdentityIsInverse(n, buffer[..]);
    }

    /** The number of elements stored, which is the number of live indices. */
    function Len(): (r: nat)
      reads this, indexToEntry, entryToIndex, buffer
      requires Valid()
      ensures r == |Contents()| && r <= N
    {
      LiveCount(indexToEntry[..], entryToIndex[..], size, buffer[..]);
      size
    }

    /** Whether `index` is live: it is, exactly when it is parked in a slot of the packed prefix. */
    function Has(index: nat): (r: bool)
      reads this, indexToEntry, entryToIndex, buffer
      requires Valid() && index < N
      ensures r <==> index in Contents()
      ensures r <==> exists s :: 0 <= s < size && entryToIndex[s] == index
    {
      LiveIffParked(indexToEntry[..], entryToIndex[..], size, buffer[..], index);
      indexToEntry[index] < size
    }

    /** Whether the storage is exhausted, which is when every external index is live. */
    function Full(): (r: bool)
      reads this, indexToEntry, entryToIndex, buffer
      requires Valid()
      ensures r <==> forall i :: 0 <= i < N ==> i in Contents()
    {
      FullIffAllLive(indexToEntry[..], entryToIndex[..], size, buffer[..]);
      assert Contents() == Live(indexToEntry[..], size, buffer[..]);
      size == N
    }

    /** The element of the live index `index`; also the indexing operator `a[index]`. */
    function Get(index: nat): (r: T)
      reads this, indexToEntry, entryToIndex, buffer
      requires Valid() && index < N && Has(index)
      ensures r == Contents()[index]
    {
      buffer[indexToEntry[index]]
    }

    /**
     * The packed prefix, which is also what `iter` walks: one element per live
     * index, slot `s` holding the element of the index parked there.
     */
    function AsSlice(): (r: seq<T>)
      reads this, indexToEntry, entryToIndex, buffer
      requires Valid()
      ensures |r| == Len()
      ensures forall s :: 0 <= s < |r| ==>
        entryToIndex[s] in Contents() && Contents()[entryToIndex[s]] == r[s]
    {
      SlotsHoldLiveValues(indexToEntry[..], entryToIndex[..], size, buffer[..]);
      buffer[..size]
    }

    /**
     * As a multiset, the packed prefix is exactly the values of the live
     * indices: each value occurs in it as often as live indices hold it.
     */
    lemma SliceIsLiveValues()
      requires Valid()
      ensures forall v :: multiset(AsSlice())[v] == Occurrences(Contents(), v)
    {
      PrefixIsLiveValues(indexToEntry[..], entryToIndex[..], size, buffer[..]);
    }

    /**
     * Parks `index` in slot `size`: `index` and the index parked there trade
     * slots, and both tables stay inverse permutations.
     */
    method SwapWithBack(index: nat)
      requires Valid() && index < N && size < N
      modifies indexToEntry, entryToIndex
      ensures Valid()
      ensures indexToEntry[..] == Swap(old(indexToEntry[..]), index, old(entryToIndex[size]))
      ensures entryToIndex[..] == Swap(old(entryToIndex[..]), old(indexToEntry[index]), size)
      ensures indexToEntry[index] == size && entryToIndex[size] == index
    {
      ghost var fwd, bwd := indexToEntry[..], entryToIndex[..];
      var entry := indexToEntry[index];
      var lastIndex := entryToIndex[size];
      indexToEntry[index], indexToEntry[lastIndex] := indexToEntry[lastIndex], indexToEntry[index];
      entryToIndex[entry], entryToIndex[size] := entryToIndex[size], entryToIndex[entry];
      assert indexToEntry[..] == Swap(fwd, index, lastIndex);
      assert entryToIndex[..] == Swap(bwd, entry, size);
      SwapPreservesInverse(fwd, bwd, index, size);
    }

    /**
     * Writes `value` in the slot of the live index `index`, as a write through
     * `get_mut(index)` or `a[index] = value` does; no other index changes.
     */
    method Assign(index: nat, value: T)
      requires Valid() && index < N && Has(index)
      modifies buffer
      ensures Valid()
      ensures Contents() == old(Contents())[index := value]
      ensures buffer[..] == old(buffer[..])[indexToEntry[index] := value]
    {
      buffer[indexToEntry[index]] := value;
      LiveAssign(indexToEntry[..], entryToIndex[..], size, old(buffer[..]), index, value);
    }

    /**
     * Stores `value` in the first free slot and returns the index parked there,
     * which becomes live with `value`; the tables do not change.
     */
    method Append(value: T) returns (index: nat)
      requires Valid() && !Full()
      modifies this, buffer
      ensures Valid() && size == old(size) + 1
      ensures index == old(entryToIndex[size]) && index < N
      ensures index !in old(Contents())
      ensures Contents() == old(Contents())[index := value]
      ensures buffer[..] == old(buffer[..])[old(size) := value]
      ensures indexToEntry[..] == old(indexToEntry[..]) && entryToIndex[..] == old(entryToIndex[..])
    {
      buffer[size] := value;
      size := size + 1;
      index := entryToIndex[size - 1];
      LiveAppend(indexToEntry[..], entryToIndex[..], size - 1, old(buffer[..]), value);
    }

    /**
     * Stores `value` under `index`. A dead index is first parked in slot `size`
     * and made live by growing `size`; a live one is overwritten in place.
     */
    method Set(index: nat, value: T)
      requires Valid() && index < N
      modifies this, indexToEntry, entryToIndex, buffer
      ensures Valid()
      ensures Contents() == old(Contents())[index := value]
      ensures size == if index in old(Contents()) then old(size) else old(size) + 1
      ensures buffer[..] == old(buffer[..])[indexToEntry[index] := value]
      ensures index in old(Contents()) ==>
        indexToEntry[..] == old(indexToEntry[..]) && entryToIndex[..] == old(entryToIndex[..])
      ensures index !in old(Contents()) ==>
        indexToEntry[..] == Swap(old(indexToEntry[..]), index, old(entryToIndex[size]))
        && entryToIndex[..] == Swap(old(entryToIndex[..]), old(indexToEntry[index]), old(size))
    {
      if !Has(index) {
        ghost var fwd, bwd, buf := indexToEntry[..], entryToIndex[..], buffer[..];
        LiveSetDead(fwd, bwd, size, buf, index, value);
        SwapWithBack(index);
        size := size + 1;
        Assign(index, value);
      } else {
        Assign(index, value);
      }
    }

    /**
     * Removes the live index `index`. When it is not in the last live slot, the
     * last live element is moved into its slot and the two indices trade slots;
     * every other index keeps its liveness and its element.
     */
    method Remove(index: nat)
      requires Valid() && index < N && Has(index)
      modifies this, indexToEntry, entryToIndex, buffer
      ensures Valid() && size == old(size) - 1
      ensures Contents() == old(Contents()) - {index}
      ensures !Has(index) && entryToIndex[size] == index
      ensures old(indexToEntry[index]) == old(size) - 1 ==>
        buffer[..] == old(buffer[..])
        && indexToEntry[..] == old(indexToEntry[..]) && entryToIndex[..] == old(entryToIndex[..])
      ensures old(indexToEntry[index]) != old(size) - 1 ==>
        buffer[..] == old(buffer[..])[old(indexToEntry[index]) := old(buffer[size - 1])]
        && indexToEntry[..] == Swap(old(indexToEntry[..]), index, old(entryToIndex[size - 1]))
        && entryToIndex[..] == Swap(old(entryToIndex[..]), old(indexToEntry[index]), size)
    {
      ghost var fwd, bwd, buf := indexToEntry[..], entryToIndex[..], buffer[..];
      size := size - 1;
      if indexToEntry[index] != size {
        FillHole(index);
      } else {
        LiveRemoveLast(fwd, bwd, size, buf, index);
      }
    }

    /**
     * The inner branch of `Remove`, entered once `size` has been decreased: the
     * element of the new boundary slot `size` is moved into the slot of `index`,
     * and `index` is parked at the boundary in exchange.
     */
    method FillHole(index: nat)
      requires Valid() && index < N && indexToEntry[index] < size < N
      modifies indexToEntry, entryToIndex, buffer
      ensures Valid()
      ensures Contents() == old(Live(indexToEntry[..], size + 1, buffer[..])) - {index}
      ensures buffer[..] == old(buffer[..])[old(indexToEntry[index]) := old(buffer[size])]
      ensures indexToEntry[..] == Swap(old(indexToEntry[..]), index, old(entryToIndex[size]))
      ensures entryToIndex[..] == Swap(old(entryToIndex[..]), old(indexToEntry[index]), size)
      ensures indexToEntry[index] == size && entryToIndex[size] == index
    {
      ghost var fwd, bwd, buf := indexToEntry[..], entryToIndex[..], buffer[..];
      var entryToDelete := indexToEntry[index];
      buffer[entryToDelete] := buffer[size];
      SwapWithBack(index);
      LiveRemoveInner(fwd, bwd, size, buf, index);
    }

    /**
     * Applies `f` to every element of the packed prefix in place, as a loop over
     * `iter_mut` or `as_slice_mut` does; every live index then holds `f` of its
     * old element, and nothing outside the prefix changes.
     */
    method MapInPlace(f: T -> T)
      requires Valid()
      modifies buffer
      ensures Valid()
      ensures Contents() == MapValues(old(Contents()), f)
      ensures forall s :: 0 <= s < size ==> buffer[s] == f(old(buffer[s]))
      ensures forall s :: size <= s < N ==> buffer[s] == old(buffer[s])
    {
      var s := 0;
      while s < size
        invariant s <= size
        invariant forall k :: 0 <= k < s ==> buffer[k] == f(old(buffer[k]))
        invariant forall k :: s <= k < N ==> buffer[k] == old(buffer[k])
      {
        buffer[s] := f(buffer[s]);
        s := s + 1;
      }
      LiveMapValues(indexToEntry[..], size, old(buffer[..]), buffer[..], f);
    }
  }

  /**
   * Appends `values` one by one to a new container of capacity `n`. With no
   * removal in between, the `k`-th append returns index `k`, and each of those
   * indices holds its value.
   */
  method AppendAll<T(0)>(n: nat, values: seq<T>) returns (a: PackedArray<T>, indices: seq<nat>)
    requires |values| <= n
    ensures a.Valid() && a.N == n && a.Len() == |values|
    ensures indices == Identity(|values|)
    ensures a.Contents() == map k: nat | k < |values| :: values[k]
  {
    a := new PackedArray(n);
    indices := [];
    while |indices| < |values|
      invariant a.Valid() && a.N == n && a.size == |indices| <= |values|
      invariant a.indexToEntry[..] == Identity(n) && a.entryToIndex[..] == Identity(n)
      invariant indices == Identity(|indices|)
      invariant a.Contents() == map k: nat | k < |indices| :: values[k]
    {
      var index := a.Append(values[|indices|]);
      indices := indices + [index];
    }
  }
}
