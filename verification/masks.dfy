/** Boolean masks as NumPy and PyTorch use them: `torch.where(m)[0]` lists
    the positions where a mask holds, and `a[m]` keeps the elements of `a`
    at those positions, in their original order. */
module Masks {
  import opened Seqs
  import opened CodeSets

  /** `torch.where(m)[0]` (equivalently `np.nonzero(m)[0]`). */
  function TrueIndices(m: seq<bool>): (idx: seq<nat>)
    ensures Increasing(idx)
    ensures InBounds(idx, |m|)
    ensures forall i :: 0 <= i < |m| ==> (i in idx <==> m[i])
    ensures |idx| <= |m|
  {
    if |m| == 0 then []
    else
      var init := TrueIndices(m[..|m| - 1]);
      assert forall k :: 0 <= k < |init| ==> init[k] in init;
      if m[|m| - 1] then init + [|m| - 1] else init
  }

  /** Some position is picked exactly when the mask holds somewhere. */
  lemma TrueIndicesNonEmpty(m: seq<bool>)
    ensures |TrueIndices(m)| > 0 <==> exists i :: 0 <= i < |m| && m[i]
  {
    var idx := TrueIndices(m);
    if |idx| > 0 {
      assert idx[0] in idx;
    }
  }

  /** Every position is picked exactly when the mask holds everywhere. */
  lemma TrueIndicesFull(m: seq<bool>)
    ensures |TrueIndices(m)| == |m| <==> forall i :: 0 <= i < |m| ==> m[i]
  {
    var idx := TrueIndices(m);
    if |idx| == |m| {
      assert forall y :: y in idx ==> y in Range(|m|) by {
        forall y | y in idx ensures y in Range(|m|) {
          var j :| 0 <= j < |idx| && idx[j] == y;
          assert Range(|m|)[y] == y;
        }
      }
      IncreasingSubsetSameLength(idx, Range(|m|));
      assert forall i :: 0 <= i < |m| ==> i in idx by {
        forall i | 0 <= i < |m| ensures i in idx {
          assert idx[i] == i;
        }
      }
    }
    if forall i :: 0 <= i < |m| ==> m[i] {
      AllTrueKeepsAll(m);
    }
  }

  /** `a[m]` for a boolean mask `m` as long as `a`. */
  function Masked<T>(a: seq<T>, m: seq<bool>): (r: seq<T>)
    requires |a| == |m|
    ensures |r| == |TrueIndices(m)|
    ensures forall j :: 0 <= j < |r| ==> r[j] == a[TrueIndices(m)[j]]
  {
    Gather(a, TrueIndices(m))
  }

  /** Masking a sequence one element longer adds that element at the end
      when the mask holds there. */
  lemma MaskedSnoc<T>(a: seq<T>, m: seq<bool>)
    requires |a| == |m| > 0
    ensures Masked(a, m) == Masked(a[..|a| - 1], m[..|m| - 1]) + (if m[|m| - 1] then [a[|a| - 1]] else [])
  {
    var n := |a|;
    var init := TrueIndices(m[..n - 1]);
    assert forall j :: 0 <= j < |init| ==> init[j] < n - 1;
  }

  /** An element survives the mask exactly when it sits at a position where
      the mask holds. */
  lemma MaskedMembership<T>(a: seq<T>, m: seq<bool>, x: T)
    requires |a| == |m|
    ensures x in Masked(a, m) <==> exists i :: 0 <= i < |a| && m[i] && a[i] == x
  {
    var idx := TrueIndices(m);
    if x in Masked(a, m) {
      var j :| 0 <= j < |idx| && Masked(a, m)[j] == x;
      assert idx[j] in idx;
    }
    if exists i :: 0 <= i < |a| && m[i] && a[i] == x {
      var i :| 0 <= i < |a| && m[i] && a[i] == x;
      assert i in idx;
      var j :| 0 <= j < |idx| && idx[j] == i;
      assert Masked(a, m)[j] == x;
    }
  }

  /** A mask that holds everywhere keeps everything. */
  lemma {:induction false} AllTrueKeepsAll(m: seq<bool>)
    requires forall i :: 0 <= i < |m| ==> m[i]
    ensures TrueIndices(m) == Range(|m|)
  {
    if |m| > 0 {
      AllTrueKeepsAll(m[..|m| - 1]);
    }
  }

  /** `a` is `b` with some elements left out and the rest in their original
      order. */
  ghost predicate SubsequenceOf<T>(a: seq<T>, b: seq<T>)
  {
    exists idx: seq<nat> :: Increasing(idx) && InBounds(idx, |b|) && |idx| == |a|
      && forall j :: 0 <= j < |a| ==> a[j] == b[idx[j]]
  }

  /** Masking keeps the surviving elements in their original order. */
  lemma MaskedIsSubsequence<T>(a: seq<T>, m: seq<bool>)
    requires |a| == |m|
    ensures SubsequenceOf(Masked(a, m), a)
  {
    var idx := TrueIndices(m);
    assert Increasing(idx) && InBounds(idx, |a|) && |idx| == |Masked(a, m)|;
  }

  /** Masking a duplicate-free sequence leaves it duplicate-free. */
  lemma MaskedDistinct<T>(a: seq<T>, m: seq<bool>)
    requires |a| == |m| && Distinct(a)
    ensures Distinct(Masked(a, m))
  {
    var idx := TrueIndices(m);
    forall i, j | 0 <= i < j < |idx| ensures Masked(a, m)[i] != Masked(a, m)[j] {
      assert idx[i] < idx[j];
    }
  }
}
