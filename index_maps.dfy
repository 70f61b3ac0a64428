/**
 * The bookkeeping of a packed array, stated on plain sequences.
 *
 * A packed array with capacity N keeps two tables of length N: `fwd` maps an
 * external index to the slot of the buffer that holds its value, and `bwd` maps
 * a slot back to the external index parked there. An index `i` is live exactly
 * when `fwd[i] < size`; the live values sit packed in the slots `[0, size)`.
 * This module proves, once and for all, how each operation of the container
 * changes the map from live index to value.
 */
module IndexMaps {

  /** `fwd` and `bwd` are mutually inverse permutations of `[0, |fwd|)`. */
  ghost predicate Inverse(fwd: seq<nat>, bwd: seq<nat>) {
    |fwd| == |bwd|
    && (forall i :: 0 <= i < |fwd| ==> fwd[i] < |bwd| && bwd[fwd[i]] == i)
    && (forall s :: 0 <= s < |bwd| ==> bwd[s] < |fwd| && fwd[bwd[s]] == s)
  }

  /** The identity table of length `n`, which both tables start out as. */
  function Identity(n: nat): (r: seq<nat>)
    ensures |r| == n
    ensures forall i :: 0 <= i < n ==> r[i] == i
  {
    seq(n, i => i)
  }

  /** `s` with the elements at positions `i` and `j` exchanged. */
  function Swap(s: seq<nat>, i: nat, j: nat): (r: seq<nat>)
    requires i < |s| && j < |s|
    ensures |r| == |s|
    ensures r[i] == s[j] && r[j] == s[i]
    ensures forall k :: 0 <= k < |s| && k != i && k != j ==> r[k] == s[k]
  {
    s[i := s[j]][j := s[i]]
  }

  /**
   * The abstract contents: every live external index (one whose slot lies
   * below `size`) mapped to the value stored in its slot.
   */
  ghost function Live<T>(fwd: seq<nat>, size: nat, buf: seq<T>): map<nat, T>
    requires size <= |buf|
  {
    map i: nat | i < |fwd| && fwd[i] < size :: buf[fwd[i]]
  }

  /** Number of live indices that hold `v`. */
  ghost function Occurrences<T>(m: map<nat, T>, v: T): nat {
    |Holders(m, v)|
  }

  /** The indices that hold `v`. */
  ghost function Holders<T>(m: map<nat, T>, v: T): set<nat> {
    set i | i in m && m[i] == v
  }

  /** `m` with `f` applied to every value. */
  ghost function MapValues<T>(m: map<nat, T>, f: T -> T): map<nat, T> {
    map i | i in m :: f(m[i])
  }

  /** The identity tables are inverse to each other and no index is live below size 0. */
  lemma IdentityIsInverse<T>(n: nat, buf: seq<T>)
    ensures Inverse(Identity(n), Identity(n))
    ensures Live(Identity(n), 0, buf) == map[]
  {
  }

  /**
   * Swapping `fwd` at `x` and at the index parked in slot `t`, together with
   * swapping `bwd` at the slot of `x` and at `t`, keeps the tables inverse and
   * parks `x` in slot `t`; the index displaced from `t` moves to the old slot of `x`.
   */
  lemma SwapPreservesInverse(fwd: seq<nat>, bwd: seq<nat>, x: nat, t: nat)
    requires Inverse(fwd, bwd)
    requires x < |fwd| && t < |bwd|
    ensures Inverse(Swap(fwd, x, bwd[t]), Swap(bwd, fwd[x], t))
    ensures Swap(fwd, x, bwd[t])[x] == t
    ensures Swap(bwd, fwd[x], t)[t] == x
    ensures Swap(fwd, x, bwd[t])[bwd[t]] == fwd[x]
  {
    var y, e := bwd[t], fwd[x];
    var fwd', bwd' := Swap(fwd, x, y), Swap(bwd, e, t);
    forall i | 0 <= i < |fwd'|
      ensures fwd'[i] < |bwd'| && bwd'[fwd'[i]] == i
    {
      if i != x && i != y {
        assert fwd[i] != e && fwd[i] != t;
      }
    }
    forall s | 0 <= s < |bwd'|
      ensures bwd'[s] < |fwd'| && fwd'[bwd'[s]] == s
    {
      if s != e && s != t {
        assert bwd[s] != x && bwd[s] != y;
      }
    }
  }

  /** An index is live exactly when it is the index parked in one of the slots `[0, size)`. */
  lemma LiveIffParked<T>(fwd: seq<nat>, bwd: seq<nat>, size: nat, buf: seq<T>, i: nat)
    requires Inverse(fwd, bwd) && size <= |fwd| && size <= |buf| && i < |fwd|
    ensures i in Live(fwd, size, buf) <==> exists s :: 0 <= s < size && bwd[s] == i
  {
    if i in Live(fwd, size, buf) {
      assert bwd[fwd[i]] == i;
    }
  }

  /** Every slot of the packed prefix holds the value of the live index parked there. */
  lemma SlotsHoldLiveValues<T>(fwd: seq<nat>, bwd: seq<nat>, size: nat, buf: seq<T>)
    requires Inverse(fwd, bwd) && size <= |fwd| && size <= |buf|
    ensures forall s :: 0 <= s < size ==>
      bwd[s] in Live(fwd, size, buf) && Live(fwd, size, buf)[bwd[s]] == buf[s]
  {
    forall s | 0 <= s < size
      ensures bwd[s] in Live(fwd, size, buf) && Live(fwd, size, buf)[bwd[s]] == buf[s]
    {
      assert fwd[bwd[s]] == s;
    }
  }

  /** The table is full (`size == N`) exactly when every external index is live. */
  lemma FullIffAllLive<T>(fwd: seq<nat>, bwd: seq<nat>, size: nat, buf: seq<T>)
    requires Inverse(fwd, bwd) && size <= |fwd| && size <= |buf|
    ensures size == |fwd| <==> forall i :: 0 <= i < |fwd| ==> i in Live(fwd, size, buf)
  {
    if size < |fwd| {
      var x := bwd[size];
      assert fwd[x] == size;
      assert x !in Live(fwd, size, buf);
    }
  }

  /** The image of an injective table on `S` has as many elements as `S`. */
  lemma {:induction false} InjectiveImageCard(f: seq<nat>, S: set<nat>)
    requires forall s :: s in S ==> s < |f|
    requires forall s, t :: s in S && t in S && f[s] == f[t] ==> s == t
    ensures |set s | s in S :: f[s]| == |S|
    decreases S
  {
    if S != {} {
      var x :| x in S;
      var S' := S - {x};
      InjectiveImageCard(f, S');
      assert (set s | s in S :: f[s]) == (set s | s in S' :: f[s]) + {f[x]};
      assert f[x] !in (set s | s in S' :: f[s]);
    }
  }

  /** A duplicate-free sequence has as many distinct elements as positions. */
  lemma {:induction false} DistinctCard(q: seq<nat>)
    requires forall j, k :: 0 <= j < k < |q| ==> q[j] != q[k]
    ensures |set x: nat | x in q| == |q|
  {
    if q != [] {
      var q' := q[..|q| - 1];
      DistinctCard(q');
      assert q == q' + [q[|q| - 1]];
      var A, B := set x: nat | x in q', set x: nat | x in q;
      assert q[|q| - 1] !in A;
      assert B == A + {q[|q| - 1]};
    }
  }

  /** Exactly `size` indices are live. */
  lemma LiveCount<T>(fwd: seq<nat>, bwd: seq<nat>, size: nat, buf: seq<T>)
    requires Inverse(fwd, bwd) && size <= |fwd| && size <= |buf|
    ensures |Live(fwd, size, buf)| == size
  {
    var parked := bwd[..size];
    forall j, k | 0 <= j < k < |parked| ensures parked[j] != parked[k] {
      assert fwd[bwd[j]] == j && fwd[bwd[k]] == k;
    }
    DistinctCard(parked);
    var keys := Live(fwd, size, buf).Keys;
    forall i | i in keys ensures i in parked {
      assert bwd[fwd[i]] == i;
      assert parked[fwd[i]] == i;
    }
    forall i | i in parked ensures i in keys {
      var s :| 0 <= s < size && parked[s] == i;
      assert fwd[bwd[s]] == s;
    }
    assert keys == set x: nat | x in parked;
  }

  /** The number of occurrences of `v` in `r` is the number of positions holding `v`. */
  lemma {:induction false} MultisetCount<T>(r: seq<T>, v: T)
    ensures multiset(r)[v] == |set s: nat | s < |r| && r[s] == v|
  {
    if r != [] {
      var r' := r[..|r| - 1];
      MultisetCount(r', v);
      assert r == r' + [r[|r| - 1]];
      var A := set s: nat | s < |r'| && r'[s] == v;
      var B := set s: nat | s < |r| && r[s] == v;
      if r[|r| - 1] == v {
        assert B == A + {|r| - 1};
      } else {
        assert B == A;
      }
    }
  }

  /**
   * The packed prefix holds each value exactly as often as live indices hold it:
   * as multisets, the prefix and the values of the live indices agree.
   */
  lemma PrefixIsLiveValues<T>(fwd: seq<nat>, bwd: seq<nat>, size: nat, buf: seq<T>)
    requires Inverse(fwd, bwd) && size <= |fwd| && size <= |buf|
    ensures forall v :: multiset(buf[..size])[v] == Occurrences(Live(fwd, size, buf), v)
  {
    var m := Live(fwd, size, buf);
    forall v ensures multiset(buf[..size])[v] == Occurrences(m, v) {
      var prefix := buf[..size];
      MultisetCount(prefix, v);
      var S := set s: nat | s < size && buf[s] == v;
      assert S == set s: nat | s < |prefix| && prefix[s] == v;
      assert multiset(buf[..size])[v] == |S|;
      InjectiveImageCard(bwd, S);
      var holders := Holders(m, v);
      forall i | i in holders ensures i in (set s | s in S :: bwd[s]) {
        assert bwd[fwd[i]] == i;
      }
      forall s | s in S ensures bwd[s] in holders {
        assert fwd[bwd[s]] == s;
      }
      assert holders == set s | s in S :: bwd[s];
      assert Occurrences(m, v) == |holders|;
    }
  }

  /** `append`: the index parked in slot `size` becomes live with `v`; nothing else changes. */
  lemma LiveAppend<T>(fwd: seq<nat>, bwd: seq<nat>, size: nat, buf: seq<T>, v: T)
    requires Inverse(fwd, bwd) && size < |fwd| && |buf| == |fwd|
    ensures bwd[size] !in Live(fwd, size, buf)
    ensures Live(fwd, size + 1, buf[size := v]) == Live(fwd, size, buf)[bwd[size] := v]
  {
    var x := bwd[size];
    assert fwd[x] == size;
    var before, after := Live(fwd, size, buf), Live(fwd, size + 1, buf[size := v]);
    assert after.Keys == before.Keys + {x};
    forall i | i in after ensures after[i] == before[x := v][i] {
      if i != x {
        assert fwd[i] != size;
      }
    }
  }

  /** Writing the slot of a live index `x` changes the value of `x` and of no other index. */
  lemma LiveAssign<T>(fwd: seq<nat>, bwd: seq<nat>, size: nat, buf: seq<T>, x: nat, v: T)
    requires Inverse(fwd, bwd) && size <= |fwd| && |buf| == |fwd|
    requires x in Live(fwd, size, buf)
    ensures Live(fwd, size, buf[fwd[x] := v]) == Live(fwd, size, buf)[x := v]
  {
    var before, after := Live(fwd, size, buf), Live(fwd, size, buf[fwd[x] := v]);
    assert after.Keys == before.Keys;
    forall i | i in after ensures after[i] == before[x := v][i] {
      if i != x {
        assert bwd[fwd[i]] == i;
      }
    }
  }

  /**
   * `remove` when the removed index `x` already sits in the last live slot
   * `last`: shrinking `size` to `last` drops `x` and nothing else.
   */
  lemma LiveRemoveLast<T>(fwd: seq<nat>, bwd: seq<nat>, last: nat, buf: seq<T>, x: nat)
    requires Inverse(fwd, bwd) && last < |fwd| && |buf| == |fwd|
    requires x < |fwd| && fwd[x] == last
    ensures Live(fwd, last, buf) == Live(fwd, last + 1, buf) - {x}
  {
    var before, after := Live(fwd, last + 1, buf), Live(fwd, last, buf);
    forall i | i in before && i != x ensures i in after {
      assert bwd[fwd[i]] == i;
    }
    assert after.Keys == before.Keys - {x};
  }

  /**
   * `remove` when the removed index `x` sits in an inner slot, below the last
   * live slot `last`: the value of slot `last` is copied into the slot of `x`
   * and the two indices trade slots, so `x` is parked at the new boundary and
   * every other live index keeps its value.
   */
  lemma LiveRemoveInner<T>(fwd: seq<nat>, bwd: seq<nat>, last: nat, buf: seq<T>, x: nat)
    requires Inverse(fwd, bwd) && last < |fwd| && |buf| == |fwd|
    requires x < |fwd| && fwd[x] < last
    ensures Live(Swap(fwd, x, bwd[last]), last, buf[fwd[x] := buf[last]])
         == Live(fwd, last + 1, buf) - {x}
  {
    var t, y := fwd[x], bwd[last];
    assert fwd[y] == last;
    var fwd', buf' := Swap(fwd, x, y), buf[t := buf[last]];
    var before, after := Live(fwd, last + 1, buf), Live(fwd', last, buf');
    forall i | i in before && i != x ensures i in after && after[i] == before[i] {
      if i != y {
        assert bwd[fwd[i]] == i;
      }
    }
    assert after.Keys == before.Keys - {x};
  }

  /**
   * `set` on a dead index `x`: there is a free slot, and parking `x` in slot
   * `size`, growing `size` and writing `v` there makes `x` live with `v` while
   * every other index keeps its liveness and value.
   */
  lemma LiveSetDead<T>(fwd: seq<nat>, bwd: seq<nat>, size: nat, buf: seq<T>, x: nat, v: T)
    requires Inverse(fwd, bwd) && size <= |fwd| && |buf| == |fwd|
    requires x < |fwd| && x !in Live(fwd, size, buf)
    ensures size < |fwd|
    ensures Live(Swap(fwd, x, bwd[size]), size + 1, buf[size := v]) == Live(fwd, size, buf)[x := v]
  {
    FullIffAllLive(fwd, bwd, size, buf);
    var y := bwd[size];
    assert fwd[y] == size;
    var fwd', buf' := Swap(fwd, x, y), buf[size := v];
    var before, after := Live(fwd, size, buf), Live(fwd', size + 1, buf');
    forall i | i in before ensures i in after && after[i] == before[i] {
      assert i != x && i != y;
    }
    forall i | i in after && i != x ensures i in before {
      assert i != y;
    }
    assert after.Keys == before.Keys + {x};
  }

  /** Applying `f` to every slot of the packed prefix applies `f` to the element of every live index. */
  lemma LiveMapValues<T>(fwd: seq<nat>, size: nat, buf: seq<T>, buf': seq<T>, f: T -> T)
    requires size <= |buf| && size <= |buf'|
    requires forall s :: 0 <= s < size ==> buf'[s] == f(buf[s])
    ensures Live(fwd, size, buf') == MapValues(Live(fwd, size, buf), f)
  {
  }
}
