/** Sequence, set and map facts shared by the pipeline stages. */
module Collections {

  datatype Option<+T> = None | Some(value: T)

  /** The distinct values of a sequence, as Python's `set(xs)`. */
  function Elems<T>(xs: seq<T>): set<T>
  {
    set x | x in xs
  }

  lemma ElemsAppend<T>(xs: seq<T>, x: T)
    ensures Elems(xs + [x]) == Elems(xs) + {x}
  {
    assert forall y :: y in xs + [x] <==> y in xs || y == x;
  }

  /** A non-empty list whose every entry is `v` has `v` as its only element. */
  lemma ElemsConstant<T>(xs: seq<T>, v: T)
    requires |xs| > 0
    requires forall k :: 0 <= k < |xs| ==> xs[k] == v
    ensures Elems(xs) == {v}
    ensures |Elems(xs)| == 1
  {
    assert xs[0] in xs;
  }

  /** Two maps with the same keys and the same value at every key are equal. */
  lemma MapsAgree<K, V>(m1: map<K, V>, m2: map<K, V>)
    requires m1.Keys == m2.Keys
    requires forall k :: k in m1 ==> m1[k] == m2[k]
    ensures m1 == m2
  {
  }

  /** No value occurs twice. */
  predicate NoDup<T(==)>(xs: seq<T>)
  {
    forall i, j :: 0 <= i < j < |xs| ==> xs[i] != xs[j]
  }

  /** `order` lists every element of `s` exactly once: one way of iterating over a set. */
  predicate IsEnumeration<T(==)>(order: seq<T>, s: set<T>)
  {
    NoDup(order) && Elems(order) == s
  }

  predicate Increasing(xs: seq<nat>)
  {
    forall i, j :: 0 <= i < j < |xs| ==> xs[i] < xs[j]
  }

  /** The positions of `xs` whose value is `c`, in increasing order
      (numpy's `np.where(xs == c)[0]`). */
  function IndicesOf<T(==)>(xs: seq<T>, c: T): (r: seq<nat>)
    ensures forall k :: 0 <= k < |r| ==> r[k] < |xs| && xs[r[k]] == c
    ensures forall i :: 0 <= i < |xs| && xs[i] == c ==> i in r
    ensures Increasing(r)
    ensures |r| <= |xs|
  {
    if xs == [] then []
    else
      var r := IndicesOf(xs[..|xs| - 1], c);
      if xs[|xs| - 1] == c then r + [|xs| - 1] else r
  }

  /** The elements of `xs` at the positions `idx`, in the order of `idx`. */
  function Select<T>(xs: seq<T>, idx: seq<nat>): (r: seq<T>)
    requires forall k :: 0 <= k < |idx| ==> idx[k] < |xs|
  {
    seq(|idx|, k requires 0 <= k < |idx| => xs[idx[k]])
  }

  /** A value occurs in a sequence exactly when its index list is non-empty. */
  lemma {:induction false} IndicesOfNonEmpty<T>(xs: seq<T>, c: T)
    ensures |IndicesOf(xs, c)| > 0 <==> c in xs
  {
    var r := IndicesOf(xs, c);
    if c in xs {
      var i :| 0 <= i < |xs| && xs[i] == c;
      assert i in r;
    }
    if |r| > 0 {
      assert xs[r[0]] == c;
    }
  }

  /** A value that occurs at exactly one position has that position as its only index. */
  lemma {:induction false} SingletonIndices<T>(xs: seq<T>, c: T, j: nat)
    requires j < |xs| && xs[j] == c
    requires forall i :: 0 <= i < |xs| && xs[i] == c ==> i == j
    ensures IndicesOf(xs, c) == [j]
  {
    var n := |xs| - 1;
    var p := xs[..n];
    if j == n {
      IndicesOfNonEmpty(p, c);
    } else {
      assert xs[n] != c;
      SingletonIndices(p, c, j);
    }
  }

  /** A sequence has at least as many entries as distinct values, with equality
      exactly when no value repeats; so deduplication never lengthens a list. */
  lemma {:induction false} ElemsCard<T>(xs: seq<T>)
    ensures |Elems(xs)| <= |xs|
    ensures |Elems(xs)| == |xs| <==> NoDup(xs)
  {
    if xs != [] {
      var n := |xs| - 1;
      var p := xs[..n];
      ElemsCard(p);
      assert xs == p + [xs[n]];
      assert Elems(xs) == Elems(p) + {xs[n]};
      if xs[n] in p {
        var i :| 0 <= i < n && p[i] == xs[n];
        assert xs[i] == xs[n];
        assert Elems(xs) == Elems(p);
      } else {
        assert xs[n] !in Elems(p);
        assert |Elems(xs)| == |Elems(p)| + 1;
        if NoDup(p) {
          forall i, j | 0 <= i < j < |xs| ensures xs[i] != xs[j] {
            if j == n { assert xs[i] == p[i]; } else { assert xs[i] == p[i] && xs[j] == p[j]; }
          }
        } else {
          var i, j :| 0 <= i < j < |p| && p[i] == p[j];
          assert xs[i] == xs[j];
        }
      }
    }
  }

  /** An enumeration of a set has one entry per element. */
  lemma EnumerationLength<T>(order: seq<T>, s: set<T>)
    requires IsEnumeration(order, s)
    ensures |order| == |s|
  {
    ElemsCard(order);
  }
}
