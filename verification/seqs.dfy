/** Facts about sequences used throughout the model: distinctness, element
    counts, index gathers (NumPy's fancy indexing `a[idx]`) and permutations
    of index ranges (`np.arange(n)` after a shuffle). */
module Seqs {

  /** The set of elements of a sequence. */
  function Elems<T>(s: seq<T>): set<T>
  {
    set x | x in s
  }

  /** No element occurs twice. */
  predicate Distinct<T(==)>(s: seq<T>)
  {
    forall i, j :: 0 <= i < j < |s| ==> s[i] != s[j]
  }

  /** How often `x` occurs in `s`. */
  function Count<T(==)>(s: seq<T>, x: T): nat
  {
    multiset(s)[x]
  }

  /** An element occurs a positive number of times exactly when it occurs. */
  lemma CountPositive<T>(s: seq<T>, x: T)
    ensures Count(s, x) > 0 <==> x in s
  {
    assert x in s <==> x in multiset(s);
  }

  lemma {:induction false} DistinctCard<T>(s: seq<T>)
    requires Distinct(s)
    ensures |Elems(s)| == |s|
  {
    if |s| > 0 {
      var init := s[..|s| - 1];
      var last := s[|s| - 1];
      assert Distinct(init);
      DistinctCard(init);
      assert s == init + [last];
      assert Elems(s) == Elems(init) + {last};
      assert last !in Elems(init);
    }
  }

  lemma {:induction false} CardAtMostLength<T>(s: seq<T>)
    ensures |Elems(s)| <= |s|
  {
    if |s| > 0 {
      var init := s[..|s| - 1];
      CardAtMostLength(init);
      assert s == init + [s[|s| - 1]];
      assert Elems(s) == Elems(init) + {s[|s| - 1]};
    }
  }

  lemma SubsetCard<T>(a: set<T>, b: set<T>)
    requires a <= b
    ensures |a| <= |b|
    ensures |a| == |b| ==> a == b
  {
    assert b == a + (b - a);
    assert |b| == |a| + |b - a|;
    if |a| == |b| {
      assert |b - a| == 0;
      assert b - a == {};
    }
  }

  /** A duplicate-free sequence drawn from `b` is no longer than `b`. */
  lemma DistinctSubsetLength<T>(a: seq<T>, b: seq<T>)
    requires Distinct(a)
    requires forall x :: x in a ==> x in b
    ensures |a| <= |b|
  {
    DistinctCard(a);
    CardAtMostLength(b);
    SubsetCard(Elems(a), Elems(b));
  }

  /** Distinctness read off the element counts. */
  lemma {:induction false} DistinctIffCountsAtMostOne<T>(s: seq<T>)
    ensures Distinct(s) <==> forall x :: Count(s, x) <= 1
  {
    if |s| == 0 {
    } else {
      var init := s[..|s| - 1];
      var last := s[|s| - 1];
      assert s == init + [last];
      DistinctIffCountsAtMostOne(init);
      assert multiset(s) == multiset(init) + multiset{last};
      if Distinct(s) {
        assert Distinct(init);
        assert last !in init;
        forall x ensures Count(s, x) <= 1 {
          assert Count(s, x) == Count(init, x) + (if x == last then 1 else 0);
        }
      } else {
        var i, j :| 0 <= i < j < |s| && s[i] == s[j];
        if j < |s| - 1 {
          assert init[i] == init[j];
          var x :| Count(init, x) > 1;
          assert Count(s, x) >= Count(init, x);
        } else {
          assert s[i] in init;
          assert Count(init, last) >= 1;
          assert Count(s, last) == Count(init, last) + 1;
        }
      }
    }
  }

  /** Two sequences with the same elements counted with multiplicity have
      the same elements. */
  lemma SameMultisetSameElements<T>(a: seq<T>, b: seq<T>)
    requires multiset(a) == multiset(b)
    ensures forall x :: x in a <==> x in b
  {
    forall x ensures x in a <==> x in b {
      assert x in a <==> x in multiset(a);
      assert x in b <==> x in multiset(b);
    }
  }

  /** Sequences with the same elements are empty together. */
  lemma SameElementsEmpty<T>(a: seq<T>, b: seq<T>)
    requires forall x :: x in a <==> x in b
    ensures |a| == 0 <==> |b| == 0
  {
    if |a| > 0 {
      assert a[0] in b;
    }
    if |b| > 0 {
      assert b[0] in a;
    }
  }

  /** Two sequences with the same elements counted with multiplicity are
      distinct together. */
  lemma DistinctSameMultiset<T>(a: seq<T>, b: seq<T>)
    requires multiset(a) == multiset(b)
    requires Distinct(a)
    ensures Distinct(b)
  {
    DistinctIffCountsAtMostOne(a);
    DistinctIffCountsAtMostOne(b);
    assert forall x :: Count(b, x) == Count(a, x);
  }

  /** Every index lies below `n`. */
  predicate InBounds(idx: seq<nat>, n: nat)
  {
    forall i :: 0 <= i < |idx| ==> idx[i] < n
  }

  /** `s[idx]`: the elements of `s` picked out by the index sequence `idx`. */
  function Gather<T>(s: seq<T>, idx: seq<nat>): (r: seq<T>)
    requires InBounds(idx, |s|)
    ensures |r| == |idx|
    ensures forall i :: 0 <= i < |idx| ==> r[i] == s[idx[i]]
  {
    seq(|idx|, i requires 0 <= i < |idx| => s[idx[i]])
  }

  /** `np.arange(n)`. */
  function Range(n: nat): (r: seq<nat>)
    ensures |r| == n
    ensures forall i :: 0 <= i < n ==> r[i] == i
  {
    seq(n, i requires 0 <= i < n => i)
  }

  /** `perm` lists every index of `0 .. n-1` exactly once: what
      `np.random.shuffle(np.arange(n))` leaves behind. */
  predicate IsPermutation(perm: seq<nat>, n: nat)
  {
    |perm| == n && InBounds(perm, n) && multiset(perm) == multiset(Range(n))
  }

  lemma GatherConcat<T>(s: seq<T>, a: seq<nat>, b: seq<nat>)
    requires InBounds(a, |s|) && InBounds(b, |s|)
    ensures InBounds(a + b, |s|)
    ensures Gather(s, a + b) == Gather(s, a) + Gather(s, b)
  {
  }

  lemma MultisetCancel<T>(a: multiset<T>, b: multiset<T>, x: T)
    requires a + multiset{x} == b + multiset{x}
    ensures a == b
  {
    forall y ensures a[y] == b[y] {
      assert (a + multiset{x})[y] == (b + multiset{x})[y];
    }
  }

  /** Dropping position `j` of an index sequence drops `s[b[j]]` from the
      gathered elements and `b[j]` from the indices. */
  lemma GatherRemoveAt<T>(s: seq<T>, b: seq<nat>, j: nat)
    requires InBounds(b, |s|)
    requires j < |b|
    ensures InBounds(b[..j] + b[j + 1..], |s|)
    ensures multiset(b[..j] + b[j + 1..]) + multiset{b[j]} == multiset(b)
    ensures multiset(Gather(s, b[..j] + b[j + 1..])) + multiset{s[b[j]]} == multiset(Gather(s, b))
  {
    var x := b[j];
    assert b == b[..j] + [x] + b[j + 1..];
    GatherConcat(s, b[..j], [x]);
    GatherConcat(s, b[..j] + [x], b[j + 1..]);
    GatherConcat(s, b[..j], b[j + 1..]);
    assert Gather(s, b) == Gather(s, b[..j]) + [s[x]] + Gather(s, b[j + 1..]);
  }

  /** Gathering with two index sequences that hold the same indices, counted
      with multiplicity, picks the same elements with multiplicity. */
  lemma {:induction false} GatherSameMultiset<T>(s: seq<T>, a: seq<nat>, b: seq<nat>)
    requires InBounds(a, |s|) && InBounds(b, |s|)
    requires multiset(a) == multiset(b)
    ensures multiset(Gather(s, a)) == multiset(Gather(s, b))
    decreases |a|
  {
    if |a| == 0 {
      assert |multiset(b)| == 0;
      assert b == [];
    } else {
      var x := a[0];
      assert x in multiset(b);
      var j :| 0 <= j < |b| && b[j] == x;
      var b' := b[..j] + b[j + 1..];
      var a' := a[1..];
      assert a[..0] + a[1..] == a';
      GatherRemoveAt(s, b, j);
      GatherRemoveAt(s, a, 0);
      MultisetCancel(multiset(b'), multiset(a'), x);
      GatherSameMultiset(s, a', b');
      assert multiset(Gather(s, a')) == multiset(Gather(s, b'));
    }
  }

  /** Permuting a sequence keeps every element with its multiplicity. */
  lemma GatherPermutation<T>(s: seq<T>, perm: seq<nat>)
    requires IsPermutation(perm, |s|)
    ensures multiset(Gather(s, perm)) == multiset(s)
  {
    GatherSameMultiset(s, perm, Range(|s|));
    assert Gather(s, Range(|s|)) == s;
  }

  /** The pairs `(a[k], b[k])` of two equally long sequences. */
  function Zip<A, B>(a: seq<A>, b: seq<B>): (r: seq<(A, B)>)
    requires |a| == |b|
    ensures |r| == |a|
    ensures forall k :: 0 <= k < |a| ==> r[k].0 == a[k] && r[k].1 == b[k]
  {
    seq(|a|, k requires 0 <= k < |a| => (a[k], b[k]))
  }
}
