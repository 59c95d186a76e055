/**
 * Lists of revision ids: distinctness, order-preserving sublists, and the two
 * list operations of the underscore library the pick list relies on,
 * `_.uniq` (first occurrence wins) and `_.difference` (order kept).
 */
module Lists {

  predicate Distinct(xs: seq<int>) {
    forall i, j :: 0 <= i < j < |xs| ==> xs[i] != xs[j]
  }

  /** `xs` is `ys` with some elements left out, the rest in the same order. */
  predicate IsSubsequence(xs: seq<int>, ys: seq<int>)
    decreases |ys|
  {
    if |xs| == 0 then true
    else if |ys| == 0 then false
    else if xs[|xs| - 1] == ys[|ys| - 1] then IsSubsequence(xs[..|xs| - 1], ys[..|ys| - 1])
    else IsSubsequence(xs, ys[..|ys| - 1])
  }

  /** The index of the first occurrence of `x` in `xs`. */
  function FirstIndex(xs: seq<int>, x: int): (p: nat)
    requires x in xs
    ensures p < |xs| && xs[p] == x
    ensures forall k :: 0 <= k < p ==> xs[k] != x
  {
    if xs[0] == x then 0 else 1 + FirstIndex(xs[1..], x)
  }

  /** Appending to a list moves no first occurrence, and a new element is first seen at the end. */
  lemma FirstIndexSnoc(xs: seq<int>, x: int)
    ensures forall y :: y in xs ==> FirstIndex(xs + [x], y) == FirstIndex(xs, y)
    ensures x !in xs ==> FirstIndex(xs + [x], x) == |xs|
  {
    var ys := xs + [x];
    forall y | y in xs
      ensures FirstIndex(ys, y) == FirstIndex(xs, y)
    {
      var p, q := FirstIndex(ys, y), FirstIndex(xs, y);
      assert ys[q] == y;
      assert forall k :: 0 <= k < q ==> ys[k] != y;
      assert p <= q;
    }
    if x !in xs {
      assert forall k :: 0 <= k < |xs| ==> ys[k] != x;
    }
  }

  /**
   * `_.uniq(xs)`: each id once, ordered by where it first occurs in `xs`.
   * With the first two clauses this fixes the result: the distinct ids of
   * `xs`, sorted by first occurrence.
   */
  function Uniq(xs: seq<int>): (u: seq<int>)
    ensures Distinct(u)
    ensures forall x :: x in u <==> x in xs
    ensures forall i, j :: 0 <= i < j < |u| ==> FirstIndex(xs, u[i]) < FirstIndex(xs, u[j])
  {
    if |xs| == 0 then []
    else
      var front, x := xs[..|xs| - 1], xs[|xs| - 1];
      var prev := Uniq(front);
      assert xs == front + [x];
      assert forall y :: y in xs <==> y in front || y == x;
      FirstIndexSnoc(front, x);
      if x in prev then prev else prev + [x]
  }

  /** `_.difference(xs, ys)`: the elements of `xs` that are not in `ys`. */
  function Difference(xs: seq<int>, ys: seq<int>): (d: seq<int>)
    ensures forall x :: x in d <==> x in xs && x !in ys
  {
    if |xs| == 0 then []
    else
      var prev := Difference(xs[..|xs| - 1], ys);
      var x := xs[|xs| - 1];
      assert forall y :: y in xs <==> y in xs[..|xs| - 1] || y == x;
      if x in ys then prev else prev + [x]
  }

  /** Appending to the longer list keeps a sublist a sublist. */
  lemma {:induction false} SubsequenceExtend(xs: seq<int>, ys: seq<int>, y: int)
    requires IsSubsequence(xs, ys)
    ensures IsSubsequence(xs, ys + [y])
    ensures IsSubsequence(xs + [y], ys + [y])
    decreases |ys|, 1
  {
    assert (ys + [y])[..|ys|] == ys;
    assert (xs + [y])[..|xs|] == xs;
    if |xs| > 0 && xs[|xs| - 1] == y {
      SubsequenceDropLast(xs, ys);
    }
  }

  /** Dropping the last element of a sublist keeps it a sublist. */
  lemma {:induction false} SubsequenceDropLast(xs: seq<int>, ys: seq<int>)
    requires |xs| > 0 && IsSubsequence(xs, ys)
    ensures IsSubsequence(xs[..|xs| - 1], ys)
    decreases |ys|, 0
  {
    var xs', ys' := xs[..|xs| - 1], ys[..|ys| - 1];
    assert ys' + [ys[|ys| - 1]] == ys;
    if xs[|xs| - 1] != ys[|ys| - 1] {
      SubsequenceDropLast(xs, ys');
    }
    SubsequenceExtend(xs', ys', ys[|ys| - 1]);
  }

  /** A sublist keeps only elements of the list it is taken from, and no more of them. */
  lemma {:induction false} SubsequenceElements(xs: seq<int>, ys: seq<int>)
    requires IsSubsequence(xs, ys)
    ensures |xs| <= |ys|
    ensures forall x :: x in xs ==> x in ys
    decreases |ys|
  {
    if |xs| > 0 {
      var ys' := ys[..|ys| - 1];
      assert forall y :: y in ys' ==> y in ys;
      if xs[|xs| - 1] == ys[|ys| - 1] {
        SubsequenceElements(xs[..|xs| - 1], ys');
        assert forall x :: x in xs ==> x in xs[..|xs| - 1] || x == xs[|xs| - 1];
      } else {
        SubsequenceElements(xs, ys');
      }
    }
  }

  /** A sublist of a list without repetitions has none either. */
  lemma {:induction false} SubsequenceDistinct(xs: seq<int>, ys: seq<int>)
    requires IsSubsequence(xs, ys) && Distinct(ys)
    ensures Distinct(xs)
    decreases |ys|
  {
    if |xs| > 0 {
      var ys' := ys[..|ys| - 1];
      if xs[|xs| - 1] == ys[|ys| - 1] {
        var xs' := xs[..|xs| - 1];
        SubsequenceDistinct(xs', ys');
        SubsequenceElements(xs', ys');
        assert ys[|ys| - 1] !in ys';
        assert xs == xs' + [xs[|xs| - 1]];
      } else {
        SubsequenceDistinct(xs, ys');
      }
    }
  }

  /** `_.uniq` keeps the ids in the order they are first seen. */
  lemma {:induction false} UniqIsSubsequence(xs: seq<int>)
    ensures IsSubsequence(Uniq(xs), xs)
  {
    if |xs| > 0 {
      var xs' := xs[..|xs| - 1];
      UniqIsSubsequence(xs');
      SubsequenceExtend(Uniq(xs'), xs', xs[|xs| - 1]);
      assert xs' + [xs[|xs| - 1]] == xs;
    }
  }

  /** A list without repetitions is its own `_.uniq`. */
  lemma {:induction false} UniqOfDistinct(xs: seq<int>)
    requires Distinct(xs)
    ensures Uniq(xs) == xs
  {
    if |xs| > 0 {
      var xs' := xs[..|xs| - 1];
      assert Distinct(xs');
      UniqOfDistinct(xs');
      assert xs[|xs| - 1] !in xs';
      assert xs' + [xs[|xs| - 1]] == xs;
    }
  }

  lemma UniqSnoc(xs: seq<int>, x: int)
    ensures Uniq(xs + [x]) == if x in xs then Uniq(xs) else Uniq(xs) + [x]
  {
    assert (xs + [x])[..|xs|] == xs;
  }

  lemma DifferenceSnoc(xs: seq<int>, x: int, ys: seq<int>)
    ensures Difference(xs + [x], ys) == if x in ys then Difference(xs, ys) else Difference(xs, ys) + [x]
  {
    assert (xs + [x])[..|xs|] == xs;
  }

  /** Regrouping a concatenation; kept as a lemma so that `UniqAppend` needs no sequence extensionality inline. */
  lemma ConcatAssoc(p: seq<int>, q: seq<int>, r: seq<int>)
    ensures (p + q) + r == p + (q + r)
  {
  }

  /**
   * Deduplicating `a + b` keeps the deduplicated `a` in front and appends the
   * ids of `b` that `a` lacks, in the order `b` first mentions them.
   */
  lemma {:induction false} UniqAppend(a: seq<int>, b: seq<int>)
    ensures Uniq(a + b) == Uniq(a) + Uniq(Difference(b, a))
  {
    if |b| == 0 {
      assert a + b == a;
      assert Difference(b, a) == [];
    } else {
      var b', x := b[..|b| - 1], b[|b| - 1];
      assert b == b' + [x];
      var ab' := a + b';
      assert a + b == ab' + [x];
      var d' := Difference(b', a);
      UniqAppend(a, b');
      UniqSnoc(ab', x);
      DifferenceSnoc(b', x, a);
      if x in a {
        calc {
          Uniq(a + b);
          Uniq(ab' + [x]);
          Uniq(ab');
          Uniq(a) + Uniq(d');
          Uniq(a) + Uniq(Difference(b, a));
        }
      } else {
        UniqSnoc(d', x);
        assert x in ab' <==> x in d';
        assert Difference(b, a) == d' + [x];
        if x in d' {
          assert Uniq(a + b) == Uniq(ab');
          assert Uniq(d' + [x]) == Uniq(d');
        } else {
          assert Uniq(a + b) == Uniq(ab') + [x];
          assert Uniq(d' + [x]) == Uniq(d') + [x];
          ConcatAssoc(Uniq(a), Uniq(d'), [x]);
        }
      }
    }
  }

  /** `_.difference` distributes over concatenation of its first argument. */
  lemma {:induction false} DifferenceAppend(a: seq<int>, b: seq<int>, ys: seq<int>)
    ensures Difference(a + b, ys) == Difference(a, ys) + Difference(b, ys)
  {
    if |b| == 0 {
      assert a + b == a;
    } else {
      var b', x := b[..|b| - 1], b[|b| - 1];
      assert b == b' + [x];
      assert a + b == (a + b') + [x];
      DifferenceAppend(a, b', ys);
      DifferenceSnoc(a + b', x, ys);
      DifferenceSnoc(b', x, ys);
    }
  }

  /** Removing ids none of which are in the list leaves the list as it is. */
  lemma {:induction false} DifferenceDisjoint(xs: seq<int>, ys: seq<int>)
    requires forall x :: x in xs ==> x !in ys
    ensures Difference(xs, ys) == xs
  {
    if |xs| > 0 {
      var xs' := xs[..|xs| - 1];
      assert forall x :: x in xs' ==> x in xs;
      DifferenceDisjoint(xs', ys);
      assert xs' + [xs[|xs| - 1]] == xs;
    }
  }

  /** `_.difference` keeps the remaining ids in their order. */
  lemma {:induction false} DifferenceIsSubsequence(xs: seq<int>, ys: seq<int>)
    ensures IsSubsequence(Difference(xs, ys), xs)
  {
    if |xs| > 0 {
      var xs' := xs[..|xs| - 1];
      DifferenceIsSubsequence(xs', ys);
      SubsequenceExtend(Difference(xs', ys), xs', xs[|xs| - 1]);
      assert xs' + [xs[|xs| - 1]] == xs;
    }
  }

  /** Removing every element a list holds leaves nothing. */
  lemma {:induction false} DifferenceCovered(xs: seq<int>, ys: seq<int>)
    requires forall x :: x in xs ==> x in ys
    ensures Difference(xs, ys) == []
  {
    if |xs| > 0 {
      var xs' := xs[..|xs| - 1];
      assert forall x :: x in xs' ==> x in xs;
      DifferenceCovered(xs', ys);
      assert xs[|xs| - 1] in xs;
    }
  }
}
