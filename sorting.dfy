/**
 * Sorting a list by a hand-written `<` that may refuse to decide.
 *
 * A comparator answers `Before` when its `a < b` returns true, `After` when it
 * returns false, and `Ambiguous` when it fails an assertion instead.  The sort
 * is an insertion sort on a local list; it fails exactly when it compares two
 * elements the comparator cannot order.
 */
module Sorting {
  import opened Errors

  datatype Order = Before | After | Ambiguous

  /** `a < b` is true exactly when `b < a` is false; a refusal is a refusal both ways. */
  ghost predicate Antisymmetric<T(!new)>(cmp: (T, T) -> Order)
  {
    forall x, y :: cmp(x, y) == Before <==> cmp(y, x) == After
  }

  /** Every element strictly precedes the next one. */
  ghost predicate Ordered<T>(s: seq<T>, cmp: (T, T) -> Order)
  {
    forall k :: 0 < k < |s| ==> cmp(s[k - 1], s[k]) == Before
  }

  /** Some two entries, at different positions, cannot be ordered. */
  ghost predicate HasTie<T>(s: seq<T>, cmp: (T, T) -> Order)
  {
    exists i, j :: 0 <= i < j < |s| && cmp(s[j], s[i]) == Ambiguous
  }

  /** The comparator's `Before` is transitive among the elements of `s`. */
  ghost predicate TransitiveOn<T>(s: seq<T>, cmp: (T, T) -> Order)
  {
    forall a, b, c :: a in s && b in s && c in s && cmp(a, b) == Before && cmp(b, c) == Before ==> cmp(a, c) == Before
  }

  /** Putting `x` between `pre[..j]` and `pre[j..]` keeps an ordered list ordered when `x` fits there. */
  lemma OrderedInsert<T(!new)>(pre: seq<T>, j: nat, x: T, cmp: (T, T) -> Order)
    requires Antisymmetric(cmp)
    requires j <= |pre| && Ordered(pre, cmp)
    requires 0 < j ==> cmp(x, pre[j - 1]) == After
    requires j < |pre| ==> cmp(x, pre[j]) == Before
    ensures Ordered(pre[..j] + [x] + pre[j..], cmp)
  {
    var s := pre[..j] + [x] + pre[j..];
    forall k | 0 < k < |s|
      ensures cmp(s[k - 1], s[k]) == Before
    {
      if k < j {
        assert s[k - 1] == pre[k - 1] && s[k] == pre[k];
      } else if k == j {
        assert s[k - 1] == pre[j - 1] && s[k] == x;
      } else if k == j + 1 {
        assert s[k - 1] == x && s[k] == pre[j];
      } else {
        assert s[k - 1] == pre[k - 2] && s[k] == pre[k - 1];
      }
    }
  }

  /**
   * One insertion step: `x` is appended to the ordered list `pre` and swapped
   * towards the front while it precedes its left neighbour.  It fails when it
   * meets a neighbour it cannot be ordered against.
   */
  method Insert<T(!new)>(pre: seq<T>, x: T, cmp: (T, T) -> Order) returns (r: Option<seq<T>>)
    requires Antisymmetric(cmp) && Ordered(pre, cmp)
    ensures r.Some? ==> multiset(r.value) == multiset(pre) + multiset{x} && Ordered(r.value, cmp)
    ensures r.None? ==> exists k :: 0 <= k < |pre| && cmp(x, pre[k]) == Ambiguous
  {
    var a := pre + [x];
    var j := |pre|;
    var placed := false;
    while 0 < j && !placed
      invariant 0 <= j <= |pre|
      invariant a == pre[..j] + [x] + pre[j..]
      invariant j < |pre| ==> cmp(x, pre[j]) == Before
      invariant placed ==> 0 < j && cmp(x, pre[j - 1]) == After
      decreases j, !placed
    {
      assert a[j - 1] == pre[j - 1] && a[j] == x;
      var c := cmp(x, a[j - 1]);
      if c == Ambiguous {
        return None;
      } else if c == After {
        placed := true;
      } else {
        a := a[j - 1 := x][j := a[j - 1]];
        j := j - 1;
        assert a == pre[..j] + [x] + pre[j..];
      }
    }
    OrderedInsert(pre, j, x, cmp);
    assert pre == pre[..j] + pre[j..];
    r := Some(a);
  }

  /**
   * Insertion sort.  On success the result is a permutation of `s` in which
   * every element strictly precedes the next; on failure the sort has met two
   * entries of `s`, at different positions, that the comparator refused to order.
   */
  method InsertionSort<T(!new)>(s: seq<T>, cmp: (T, T) -> Order) returns (r: Option<seq<T>>)
    requires Antisymmetric(cmp)
    ensures r.Some? ==> multiset(r.value) == multiset(s) && Ordered(r.value, cmp)
    ensures r.None? ==> HasTie(s, cmp)
  {
    var a: seq<T> := [];
    var i := 0;
    while i < |s|
      invariant 0 <= i <= |s|
      invariant multiset(a) == multiset(s[..i])
      invariant Ordered(a, cmp)
    {
      var next := Insert(a, s[i], cmp);
      if next.None? {
        ghost var k :| 0 <= k < |a| && cmp(s[i], a[k]) == Ambiguous;
        assert a[k] in multiset(s[..i]);
        ghost var m :| 0 <= m < i && s[m] == a[k];
        assert cmp(s[i], s[m]) == Ambiguous;
        return None;
      }
      assert s[..i + 1] == s[..i] + [s[i]];
      a := next.value;
      i := i + 1;
    }
    assert s == s[..i];
    r := Some(a);
  }

  /** With a transitive comparator, a list ordered neighbour by neighbour is ordered pair by pair. */
  lemma {:induction false} OrderedPairwise<T>(s: seq<T>, cmp: (T, T) -> Order, i: nat, j: nat)
    requires Ordered(s, cmp) && TransitiveOn(s, cmp)
    requires i < j < |s|
    ensures cmp(s[i], s[j]) == Before
    decreases j - i
  {
    if i + 1 < j {
      OrderedPairwise(s, cmp, i, j - 1);
      assert s[i] in s && s[j - 1] in s && s[j] in s;
    }
  }

  /**
   * When the comparator is transitive on the input, a sort that succeeds has
   * shown that no two different elements of the input tie.
   */
  lemma SortedHasNoTie<T(!new)>(s: seq<T>, r: seq<T>, cmp: (T, T) -> Order)
    requires Antisymmetric(cmp)
    requires multiset(r) == multiset(s) && Ordered(r, cmp) && TransitiveOn(r, cmp)
    ensures forall x, y :: x in s && y in s && x != y ==> cmp(x, y) != Ambiguous
  {
    forall x, y | x in s && y in s && x != y
      ensures cmp(x, y) != Ambiguous
    {
      assert x in multiset(r) && y in multiset(r);
      var p :| 0 <= p < |r| && r[p] == x;
      var q :| 0 <= q < |r| && r[q] == y;
      if p < q {
        OrderedPairwise(r, cmp, p, q);
      } else {
        OrderedPairwise(r, cmp, q, p);
      }
    }
  }
}
