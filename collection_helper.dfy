/**
 * `CollectionHelper`: order-insensitive comparison of two collections, and
 * the null-or-empty test.  A Java `Collection<T>` that may be null is an
 * `Option<seq<T>>` holding the elements in iteration order.
 */
module CollectionHelper {
  import opened Wrappers

  /** `isEmpty(col)`: true iff the collection is null or holds no element. */
  function IsEmpty<T>(col: Option<seq<T>>): (r: bool)
    ensures r <==> (col.None? || forall x :: x !in col.value)
  {
    col.None? || (assert |col.value| > 0 ==> col.value[0] in col.value; |col.value| == 0)
  }

  /**
   * The natural ordering `compareTo` that `List.sort(null)` uses, as a
   * "less than or equal" relation: total, transitive, and consistent with
   * `equals` (two elements that compare as 0 are equal).
   */
  ghost predicate TotalOrder<T(!new)>(le: (T, T) -> bool)
  {
    Total(le) && Antisymmetric(le) && Transitive(le)
  }

  ghost predicate Total<T(!new)>(le: (T, T) -> bool)
  {
    forall x, y :: le(x, y) || le(y, x)
  }

  /** Consistent with `equals`: elements that compare as 0 are equal. */
  ghost predicate Antisymmetric<T(!new)>(le: (T, T) -> bool)
  {
    forall x, y :: le(x, y) && le(y, x) ==> x == y
  }

  ghost predicate Transitive<T(!new)>(le: (T, T) -> bool)
  {
    forall x, y, z :: le(x, y) && le(y, z) ==> le(x, z)
  }

  ghost predicate SortedBy<T>(le: (T, T) -> bool, s: seq<T>)
  {
    forall i, j :: 0 <= i < j < |s| ==> le(s[i], s[j])
  }

  /**
   * What `isEquals(first, second)` decides: both null, or both non-null
   * holding the same elements with the same multiplicities.
   */
  function SameElements<T(==)>(first: Option<seq<T>>, second: Option<seq<T>>): bool
  {
    if first.None? && second.None? then true
    else if first.None? || second.None? then false
    else multiset(first.value) == multiset(second.value)
  }

  /** Two sorted arrangements of the same multiset are the same sequence. */
  lemma {:induction false} SortedPermutationsEqual<T(!new)>(le: (T, T) -> bool, s: seq<T>, t: seq<T>)
    requires Antisymmetric(le)
    requires SortedBy(le, s) && SortedBy(le, t)
    requires multiset(s) == multiset(t)
    ensures s == t
  {
    assert |s| == |multiset(s)| == |multiset(t)| == |t|;
    if s != [] {
      HeadsEqual(le, s, t);
      assert multiset(s[1..]) == multiset(t[1..]) by {
        assert s == [s[0]] + s[1..];
        assert t == [t[0]] + t[1..];
        assert multiset(s[1..]) == multiset(s) - multiset{s[0]};
        assert multiset(t[1..]) == multiset(t) - multiset{t[0]};
      }
      SortedPermutationsEqual(le, s[1..], t[1..]);
      assert s == [s[0]] + s[1..];
      assert t == [t[0]] + t[1..];
    }
  }

  /** The first element of a sorted sequence is its least element, so two such heads agree. */
  lemma HeadsEqual<T(!new)>(le: (T, T) -> bool, s: seq<T>, t: seq<T>)
    requires Antisymmetric(le)
    requires SortedBy(le, s) && SortedBy(le, t)
    requires multiset(s) == multiset(t) && s != [] && t != []
    ensures s[0] == t[0]
  {
    assert s[0] in multiset(t);
    assert t[0] in multiset(s);
    var i :| 0 <= i < |t| && t[i] == s[0];
    var j :| 0 <= j < |s| && s[j] == t[0];
    if i > 0 && j > 0 {
      assert le(t[0], t[i]) && le(s[0], s[j]);
    }
  }

  method Swap<T>(a: array<T>, i: int, j: int)
    requires 0 <= i < a.Length && 0 <= j < a.Length
    modifies a
    ensures a[i] == old(a[j]) && a[j] == old(a[i])
    ensures forall k :: 0 <= k < a.Length && k != i && k != j ==> a[k] == old(a[k])
    ensures multiset(a[..]) == old(multiset(a[..]))
  {
    a[i], a[j] := a[j], a[i];
  }

  /** `List.sort(null)` on a copy: leaves the array sorted and a permutation of what it held. */
  method Sort<T(!new)>(a: array<T>, le: (T, T) -> bool)
    requires TotalOrder(le)
    modifies a
    ensures SortedBy(le, a[..])
    ensures multiset(a[..]) == old(multiset(a[..]))
  {
    var i := 0;
    while i < a.Length
      invariant 0 <= i <= a.Length
      invariant forall k, l :: 0 <= k < l < i ==> le(a[k], a[l])
      invariant multiset(a[..]) == old(multiset(a[..]))
    {
      var j := i;
      while j > 0 && !le(a[j - 1], a[j])
        invariant 0 <= j <= i
        invariant forall k, l :: 0 <= k < l <= i && k != j && l != j ==> le(a[k], a[l])
        invariant forall l :: j < l <= i ==> le(a[j], a[l])
        invariant multiset(a[..]) == old(multiset(a[..]))
      {
        Swap(a, j - 1, j);
        j := j - 1;
      }
      i := i + 1;
    }
  }

  /**
   * `isEquals(first, second)`: null checks, size check, then sorted copies
   * compared position by position.  Neither input is changed; only the fresh
   * copies are sorted.
   */
  method IsEquals<T(==, !new)>(first: Option<seq<T>>, second: Option<seq<T>>, le: (T, T) -> bool) returns (r: bool)
    requires TotalOrder(le)
    ensures first.None? && second.None? ==> r
    ensures first.None? != second.None? ==> !r
    ensures first.Some? && second.Some? && |first.value| != |second.value| ==> !r
    ensures first.Some? && second.Some? ==> (r <==> multiset(first.value) == multiset(second.value))
    ensures r == SameElements(first, second)
  {
    if first.None? && second.None? {
      return true;
    }
    if first.None? || second.None? {
      return false;
    }
    var xs, ys := first.value, second.value;
    if |xs| != |ys| {
      assert |multiset(xs)| != |multiset(ys)|;
      return false;
    }
    var list1 := new T[|xs|](k requires 0 <= k < |xs| => xs[k]);
    var list2 := new T[|ys|](k requires 0 <= k < |ys| => ys[k]);
    assert list1[..] == xs && list2[..] == ys;
    Sort(list1, le);
    Sort(list2, le);
    var isEquals := true;
    var i := 0;
    while i < list1.Length
      invariant 0 <= i <= list1.Length
      invariant isEquals
      invariant forall k :: 0 <= k < i ==> list1[k] == list2[k]
    {
      if list1[i] != list2[i] {
        isEquals := false;
        break;
      }
      i := i + 1;
    }
    if isEquals {
      assert list1[..] == list2[..];
    } else {
      assert list1[..][i] != list2[..][i];
      if multiset(xs) == multiset(ys) {
        SortedPermutationsEqual(le, list1[..], list2[..]);
        assert false;
      }
    }
    r := isEquals;
  }

  /** The order of the elements never matters. */
  lemma SameElementsPermutation<T>(first: seq<T>, first': seq<T>, second: Option<seq<T>>)
    requires multiset(first) == multiset(first')
    ensures SameElements(Some(first), second) == SameElements(Some(first'), second)
    ensures SameElements(second, Some(first)) == SameElements(second, Some(first'))
  {
  }

  /** The comparison is symmetric. */
  lemma SameElementsSymmetric<T>(first: Option<seq<T>>, second: Option<seq<T>>)
    ensures SameElements(first, second) == SameElements(second, first)
  {
  }

  /** The comparison is reflexive (on null as well). */
  lemma SameElementsReflexive<T>(col: Option<seq<T>>)
    ensures SameElements(col, col)
  {
  }
}
