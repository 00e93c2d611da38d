/**
 * `Array.prototype.sort(comparator)` on an array of values: the array is sorted in place
 * by insertion, which keeps elements that compare equal in their original order, as the
 * stable sort of the language does. With a consistent comparator the result is sorted and
 * a permutation of the input.
 */
module ArraySort {

  /** A comparator: negative, zero or positive. */
  type Comparator<!T> = (T, T) -> int

  /** Swapping the arguments flips the sign, and "not greater" is transitive. */
  ghost predicate Consistent<T(!new)>(cmp: Comparator<T>) {
    && (forall x, y :: cmp(x, y) < 0 <==> cmp(y, x) > 0)
    && (forall x, y, z :: cmp(x, y) <= 0 && cmp(y, z) <= 0 ==> cmp(x, z) <= 0)
  }

  predicate Sorted<T>(cmp: Comparator<T>, s: seq<T>) {
    forall i, j :: 0 <= i < j < |s| ==> cmp(s[i], s[j]) <= 0
  }

  /**
   * Inserts `x` behind `s` the way one pass of an insertion sort does: `x` moves left past
   * every trailing element that compares greater than it, and no further.
   */
  function Insert<T>(cmp: Comparator<T>, s: seq<T>, x: T): seq<T>
    decreases |s|
  {
    if s == [] then [x]
    else if cmp(s[|s| - 1], x) > 0 then Insert(cmp, s[..|s| - 1], x) + [s[|s| - 1]]
    else s + [x]
  }

  /** The elements inserted one by one, in their original order. */
  function InsertionSort<T>(cmp: Comparator<T>, s: seq<T>): seq<T>
    decreases |s|
  {
    if s == [] then []
    else Insert(cmp, InsertionSort(cmp, s[..|s| - 1]), s[|s| - 1])
  }

  lemma {:induction false} InsertPermutes<T>(cmp: Comparator<T>, s: seq<T>, x: T)
    ensures multiset(Insert(cmp, s, x)) == multiset(s) + multiset{x}
    decreases |s|
  {
    if s != [] && cmp(s[|s| - 1], x) > 0 {
      InsertPermutes(cmp, s[..|s| - 1], x);
      assert s == s[..|s| - 1] + [s[|s| - 1]];
    }
  }

  /** Inserting into a sorted sequence keeps it sorted. */
  lemma InsertSorted<T(!new)>(cmp: Comparator<T>, s: seq<T>, x: T)
    requires Consistent(cmp) && Sorted(cmp, s)
    ensures Sorted(cmp, Insert(cmp, s, x))
  {
    var p := InsertPos(cmp, s, x);
    InsertAt(cmp, s, p, x);
    PrefixNotGreater(cmp, s, p, x);
    SuffixGreater(cmp, s, p, x);
    SortedSplice(cmp, s, p, x);
  }

  /** Everything up to a not-greater element is not greater either. */
  lemma PrefixNotGreater<T(!new)>(cmp: Comparator<T>, s: seq<T>, p: nat, x: T)
    requires Consistent(cmp) && Sorted(cmp, s)
    requires p <= |s| && (p == 0 || cmp(s[p - 1], x) <= 0)
    ensures forall i :: 0 <= i < p ==> cmp(s[i], x) <= 0
  {
    forall i | 0 <= i < p ensures cmp(s[i], x) <= 0 {
      if i < p - 1 {
        assert cmp(s[i], s[p - 1]) <= 0;
      }
    }
  }

  /** An element that compares greater than `x` follows it. */
  lemma SuffixGreater<T(!new)>(cmp: Comparator<T>, s: seq<T>, p: nat, x: T)
    requires Consistent(cmp) && p <= |s|
    requires forall k :: p <= k < |s| ==> cmp(s[k], x) > 0
    ensures forall k :: p <= k < |s| ==> cmp(x, s[k]) <= 0
  {
    forall k | p <= k < |s| ensures cmp(x, s[k]) <= 0 {
      assert cmp(s[k], x) > 0;
    }
  }

  /** Where `Insert` puts `x`: behind the last element, from the end, that is not greater. */
  function InsertPos<T>(cmp: Comparator<T>, s: seq<T>, x: T): (p: nat)
    ensures p <= |s| && (p == 0 || cmp(s[p - 1], x) <= 0)
    ensures forall k :: p <= k < |s| ==> cmp(s[k], x) > 0
    decreases |s|
  {
    if s == [] then 0
    else if cmp(s[|s| - 1], x) > 0 then InsertPos(cmp, s[..|s| - 1], x)
    else |s|
  }

  /** `x` placed between a sorted prefix it follows and a sorted suffix it precedes. */
  lemma SortedSplice<T>(cmp: Comparator<T>, s: seq<T>, p: nat, x: T)
    requires p <= |s| && Sorted(cmp, s)
    requires forall i :: 0 <= i < p ==> cmp(s[i], x) <= 0
    requires forall k :: p <= k < |s| ==> cmp(x, s[k]) <= 0
    ensures Sorted(cmp, s[..p] + [x] + s[p..])
  {
    var r := s[..p] + [x] + s[p..];
    forall i, j | 0 <= i < j < |r| ensures cmp(r[i], r[j]) <= 0 {
      if j < p {
        assert r[i] == s[i] && r[j] == s[j];
      } else if j == p {
        assert r[i] == s[i];
      } else if i == p {
        assert r[j] == s[j - 1];
      } else if i < p {
        assert r[i] == s[i] && r[j] == s[j - 1];
      } else {
        assert r[i] == s[i - 1] && r[j] == s[j - 1];
      }
    }
  }

  /** The sort returns the same elements, each as often as before, in comparator order. */
  lemma InsertionSortSpec<T(!new)>(cmp: Comparator<T>, s: seq<T>)
    requires Consistent(cmp)
    ensures Sorted(cmp, InsertionSort(cmp, s))
    ensures multiset(InsertionSort(cmp, s)) == multiset(s)
    ensures |InsertionSort(cmp, s)| == |s|
  {
    InsertionSortSorted(cmp, s);
    InsertionSortPermutes(cmp, s);
  }

  lemma {:induction false} InsertionSortSorted<T(!new)>(cmp: Comparator<T>, s: seq<T>)
    requires Consistent(cmp)
    ensures Sorted(cmp, InsertionSort(cmp, s))
    decreases |s|
  {
    if s != [] {
      var n := |s| - 1;
      InsertionSortSorted(cmp, s[..n]);
      InsertSorted(cmp, InsertionSort(cmp, s[..n]), s[n]);
    }
  }

  lemma {:induction false} InsertionSortPermutes<T>(cmp: Comparator<T>, s: seq<T>)
    ensures multiset(InsertionSort(cmp, s)) == multiset(s)
    ensures |InsertionSort(cmp, s)| == |s|
    decreases |s|
  {
    if s != [] {
      var n := |s| - 1;
      InsertionSortPermutes(cmp, s[..n]);
      InsertPermutes(cmp, InsertionSort(cmp, s[..n]), s[n]);
      assert s == s[..n] + [s[n]];
      assert |multiset(InsertionSort(cmp, s))| == |multiset(s)|;
    }
  }

  /** `a.sort(cmp)`: sorts the array in place. */
  method Sort<T>(a: array<T>, cmp: Comparator<T>)
    modifies a
    ensures a[..] == InsertionSort(cmp, old(a[..]))
  {
    ghost var input := a[..];
    var i := 0;
    while i < a.Length
      invariant 0 <= i <= a.Length
      invariant a[..i] == InsertionSort(cmp, input[..i])
      invariant a[i..] == input[i..]
    {
      ghost var before := a[..];
      InsertLast(a, i, cmp);
      SortStep(cmp, input, before, a[..], i);
      i := i + 1;
    }
    assert a[..] == a[..a.Length] && input == input[..a.Length];
  }

  /** After one pass the sorted prefix is one element longer. */
  lemma SortStep<T>(cmp: Comparator<T>, input: seq<T>, before: seq<T>, after: seq<T>, i: nat)
    requires i < |input| == |before| == |after|
    requires before[..i] == InsertionSort(cmp, input[..i]) && before[i..] == input[i..]
    requires after[..i + 1] == Insert(cmp, before[..i], before[i]) && after[i + 1..] == before[i + 1..]
    ensures after[..i + 1] == InsertionSort(cmp, input[..i + 1])
    ensures after[i + 1..] == input[i + 1..]
  {
    assert input[..i + 1][..i] == input[..i];
    assert before[i] == before[i..][0] == input[i];
    assert before[i + 1..] == before[i..][1..];
    assert input[i + 1..] == input[i..][1..];
  }

  /** One pass: the element at `i` moves left into the sorted prefix before it. */
  method InsertLast<T>(a: array<T>, i: nat, cmp: Comparator<T>)
    requires i < a.Length
    modifies a
    ensures a[..i + 1] == Insert(cmp, old(a[..i]), old(a[i]))
    ensures a[i + 1..] == old(a[i + 1..])
  {
    ghost var sorted := a[..i];
    ghost var rest := a[i + 1..];
    var x := a[i];
    var j := ShiftGreater(a, i, x, cmp);
    InsertAt(cmp, sorted, j, x);
    a[j] := x;
    Reassembled(a[..], sorted, rest, j, x);
  }

  /**
   * Moves each element of `a[..i]` that compares greater than `x`, from the right, one
   * place to the right, and returns the gap left where `x` belongs.
   */
  method ShiftGreater<T>(a: array<T>, i: nat, x: T, cmp: Comparator<T>) returns (j: nat)
    requires i < a.Length
    modifies a
    ensures j <= i && (j == 0 || cmp(old(a[j - 1]), x) <= 0)
    ensures forall k :: 0 <= k < j ==> a[k] == old(a[k])
    ensures forall k :: j <= k < i ==> a[k + 1] == old(a[k]) && cmp(old(a[k]), x) > 0
    ensures forall k :: i < k < a.Length ==> a[k] == old(a[k])
  {
    j := i;
    while j > 0 && cmp(a[j - 1], x) > 0
      invariant 0 <= j <= i
      invariant forall k :: 0 <= k < j ==> a[k] == old(a[k])
      invariant forall k :: j <= k < i ==> a[k + 1] == old(a[k]) && cmp(old(a[k]), x) > 0
      invariant forall k :: i < k < a.Length ==> a[k] == old(a[k])
    {
      a[j] := a[j - 1];
      j := j - 1;
    }
  }

  /**
   * `x` lands at `j` when every element from `j` on compares greater than it and the one
   * before `j`, if any, does not.
   */
  lemma {:induction false} InsertAt<T>(cmp: Comparator<T>, s: seq<T>, j: nat, x: T)
    requires j <= |s| && (j == 0 || cmp(s[j - 1], x) <= 0)
    requires forall k :: j <= k < |s| ==> cmp(s[k], x) > 0
    ensures Insert(cmp, s, x) == s[..j] + [x] + s[j..]
    decreases |s|
  {
    if |s| > j {
      var n := |s| - 1;
      InsertAt(cmp, s[..n], j, x);
      assert s[..n][..j] == s[..j];
      assert s[..n][j..] + [s[n]] == s[j..];
    } else {
      assert s[..j] == s;
    }
  }

  /** The array after a pass, read back as a sequence. */
  lemma Reassembled<T>(s: seq<T>, sorted: seq<T>, rest: seq<T>, j: nat, x: T)
    requires j <= |sorted| && |s| == |sorted| + 1 + |rest|
    requires forall k :: 0 <= k < j ==> s[k] == sorted[k]
    requires s[j] == x
    requires forall k :: j <= k < |sorted| ==> s[k + 1] == sorted[k]
    requires forall k :: 0 <= k < |rest| ==> s[|sorted| + 1 + k] == rest[k]
    ensures s[..|sorted| + 1] == sorted[..j] + [x] + sorted[j..]
    ensures s[|sorted| + 1..] == rest
  {
  }
}
