/** NumPy's set routines on arrays of non-negative integer codes:
    `np.unique`, `np.union1d`, `np.intersect1d` (all return the sorted,
    duplicate-free elements) and `np.isin` used as a boolean mask. */
module CodeSets {
  import opened Seqs

  /** Strictly increasing: sorted and duplicate-free at once. */
  predicate Increasing(s: seq<nat>)
  {
    forall i, j :: 0 <= i < j < |s| ==> s[i] < s[j]
  }

  /** Adds `x` to a sorted duplicate-free sequence. */
  function Insert(x: nat, s: seq<nat>): (r: seq<nat>)
    requires Increasing(s)
    ensures Increasing(r)
    ensures forall y :: y in r <==> y in s || y == x
    ensures |r| == if x in s then |s| else |s| + 1
  {
    if |s| == 0 then [x]
    else if x < s[0] then [x] + s
    else if x == s[0] then s
    else
      var rest := Insert(x, s[1..]);
      assert forall k :: 0 <= k < |rest| ==> rest[k] in rest;
      assert x in s <==> x in s[1..] by {
        assert s == [s[0]] + s[1..];
      }
      [s[0]] + rest
  }

  /** `np.unique(s)`: the distinct elements of `s` in increasing order. */
  function Unique(s: seq<nat>): (r: seq<nat>)
    ensures Increasing(r)
    ensures forall y :: y in r <==> y in s
    ensures |r| <= |s|
    ensures Distinct(s) ==> |r| == |s|
    ensures |s| > 0 ==> |r| > 0
  {
    if |s| == 0 then []
    else
      var init := s[..|s| - 1];
      assert s == init + [s[|s| - 1]];
      assert Distinct(s) ==> s[|s| - 1] !in init;
      Insert(s[|s| - 1], Unique(init))
  }

  /** A sorted duplicate-free sequence is fixed by its elements: whatever
      algorithm computes `np.unique`, the result is the same. */
  lemma {:induction false} IncreasingCanonical(a: seq<nat>, b: seq<nat>)
    requires Increasing(a) && Increasing(b)
    requires forall y :: y in a <==> y in b
    ensures a == b
    decreases |a|
  {
    if |a| == 0 {
      assert Elems(b) == Elems(a) == {};
      DistinctCard(b);
    } else {
      assert a[0] in b && b[0] in a;
      assert a[0] == b[0];
      forall y ensures y in a[1..] <==> y in b[1..] {
        if y in a[1..] {
          var i :| 1 <= i < |a| && a[i] == y;
          assert y in b && y != b[0];
        }
        if y in b[1..] {
          var i :| 1 <= i < |b| && b[i] == y;
          assert y in a && y != a[0];
        }
      }
      IncreasingCanonical(a[1..], b[1..]);
      assert a == [a[0]] + a[1..];
      assert b == [b[0]] + b[1..];
    }
  }

  /** `np.union1d(a, b)`. */
  function Union1d(a: seq<nat>, b: seq<nat>): (r: seq<nat>)
    ensures Increasing(r)
    ensures forall y :: y in r <==> y in a || y in b
  {
    Unique(a + b)
  }

  /** `s[np.isin(s, keys) == keep]`: the elements of `s`, in order, whose
      membership in `keys` is `keep`. */
  function Filter(s: seq<nat>, keys: seq<nat>, keep: bool): (r: seq<nat>)
    ensures forall y :: y in r <==> y in s && (y in keys) == keep
    ensures Increasing(s) ==> Increasing(r)
    ensures |r| <= |s|
  {
    if |s| == 0 then []
    else
      var rest := Filter(s[1..], keys, keep);
      assert forall y :: y in s <==> y == s[0] || y in s[1..] by {
        assert s == [s[0]] + s[1..];
      }
      if (s[0] in keys) == keep then
        if Increasing(s) then
          ConsIncreasing(s[0], s[1..], rest);
          [s[0]] + rest
        else
          [s[0]] + rest
      else rest
  }

  /** Putting the head of a sorted sequence in front of a sorted selection
      from its tail keeps it sorted. */
  lemma ConsIncreasing(x: nat, tail: seq<nat>, rest: seq<nat>)
    requires Increasing([x] + tail)
    requires Increasing(rest)
    requires forall y :: y in rest ==> y in tail
    ensures Increasing([x] + rest)
  {
    forall k | 0 <= k < |rest| ensures x < rest[k] {
      assert rest[k] in tail;
      var i :| 0 <= i < |tail| && tail[i] == rest[k];
      assert ([x] + tail)[0] == x && ([x] + tail)[i + 1] == rest[k];
    }
  }

  /** Filtering a sorted sequence by membership in its own subset recovers
      `np.unique` of that subset. */
  lemma FilterIsUniqueOfKeys(u: seq<nat>, keys: seq<nat>)
    requires Increasing(u)
    requires forall y :: y in keys ==> y in u
    ensures Filter(u, keys, true) == Unique(keys)
  {
    IncreasingCanonical(Filter(u, keys, true), Unique(keys));
  }

  /** `np.intersect1d(a, b)`. */
  function Intersect1d(a: seq<nat>, b: seq<nat>): (r: seq<nat>)
    ensures Increasing(r)
    ensures forall y :: y in r <==> y in a && y in b
    ensures |r| <= |Unique(a)|
  {
    Filter(Unique(a), b, true)
  }

  /** `np.intersect1d` does not depend on the order of its arguments. */
  lemma IntersectCommutes(a: seq<nat>, b: seq<nat>)
    ensures Intersect1d(a, b) == Intersect1d(b, a)
  {
    IncreasingCanonical(Intersect1d(a, b), Intersect1d(b, a));
  }

  /** The intersection with `b` of a duplicate-free `a` is as long as `a`
      exactly when every element of `a` is in `b`. */
  lemma IntersectFull(a: seq<nat>, b: seq<nat>)
    requires Distinct(a)
    ensures |Intersect1d(a, b)| == |a| <==> forall z :: z in a ==> z in b
  {
    var inter := Intersect1d(a, b);
    if |inter| == |a| {
      IncreasingSubsetSameLength(inter, Unique(a));
      assert forall z :: z in a ==> z in Unique(a);
    }
    if forall z :: z in a ==> z in b {
      IncreasingCanonical(inter, Unique(a));
    }
  }

  /** Two sorted duplicate-free sequences, one drawn from the other and
      equally long, are equal. */
  lemma IncreasingSubsetSameLength(a: seq<nat>, b: seq<nat>)
    requires Increasing(a) && Increasing(b)
    requires forall y :: y in a ==> y in b
    requires |a| == |b|
    ensures a == b
  {
    DistinctCard(a);
    DistinctCard(b);
    SubsetCard(Elems(a), Elems(b));
    assert forall y :: y in b ==> y in Elems(b);
    IncreasingCanonical(a, b);
  }
}
