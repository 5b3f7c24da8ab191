/**
 * `Array.prototype.sort(compare)`: a stable sort driven by a three-way
 * comparator. The function `Sort` is the specification (an insertion sort);
 * `SortInPlace` reorders an array and is proved to leave exactly `Sort` of
 * its old contents.
 */
module StableSort {

  import opened Seqs

  /**
   * What JavaScript asks of a comparator: the sign is antisymmetric and
   * "not after" is transitive.
   */
  ghost predicate Consistent<T(!new)>(cmp: (T, T) -> int)
  {
    && (forall a, b :: cmp(a, b) < 0 <==> cmp(b, a) > 0)
    && (forall a, b, c :: cmp(a, b) <= 0 && cmp(b, c) <= 0 ==> cmp(a, c) <= 0)
  }

  /** Non-decreasing under `cmp`. */
  ghost predicate Sorted<T>(s: seq<T>, cmp: (T, T) -> int)
  {
    forall i, j :: 0 <= i < j < |s| ==> cmp(s[i], s[j]) <= 0
  }

  /** The elements of `s` that `cmp` ranks equal to `k`, in their order in `s`. */
  function Equivalents<T>(s: seq<T>, k: T, cmp: (T, T) -> int): seq<T>
  {
    Filter(s, EquivalentTo(k, cmp))
  }

  /** The test "ranked equal to `k`" as a predicate value. */
  function EquivalentTo<T>(k: T, cmp: (T, T) -> int): T -> bool
  {
    (y: T) => cmp(y, k) == 0
  }

  /** Puts `x` after every element of `ys` that does not sort after it. */
  function Insert<T>(ys: seq<T>, x: T, cmp: (T, T) -> int): (r: seq<T>)
    ensures |r| == |ys| + 1
  {
    if ys == [] then [x]
    else
      var init, last := ys[..|ys| - 1], ys[|ys| - 1];
      assert ys == init + [last];
      if cmp(last, x) <= 0 then ys + [x]
      else Insert(init, x, cmp) + [last]
  }

  function Sort<T>(s: seq<T>, cmp: (T, T) -> int): (r: seq<T>)
    ensures |r| == |s|
  {
    if s == [] then []
    else Insert(Sort(s[..|s| - 1], cmp), s[|s| - 1], cmp)
  }

  lemma {:induction false} InsertPermutes<T>(ys: seq<T>, x: T, cmp: (T, T) -> int)
    ensures multiset(Insert(ys, x, cmp)) == multiset(ys) + multiset{x}
  {
    if ys != [] {
      var init, last := ys[..|ys| - 1], ys[|ys| - 1];
      assert ys == init + [last];
      if cmp(last, x) > 0 {
        InsertPermutes(init, x, cmp);
      }
    }
  }

  /** The sort neither adds, loses nor duplicates an element. */
  lemma {:induction false} SortPermutes<T>(s: seq<T>, cmp: (T, T) -> int)
    ensures multiset(Sort(s, cmp)) == multiset(s)
  {
    if s != [] {
      var init, last := s[..|s| - 1], s[|s| - 1];
      assert s == init + [last];
      SortPermutes(init, cmp);
      InsertPermutes(Sort(init, cmp), last, cmp);
    }
  }

  lemma SortedSnoc<T>(ys: seq<T>, b: T, cmp: (T, T) -> int)
    requires Sorted(ys, cmp)
    requires forall i :: 0 <= i < |ys| ==> cmp(ys[i], b) <= 0
    ensures Sorted(ys + [b], cmp)
  {
  }

  /** Inserting below a bound keeps every element below it. */
  lemma {:induction false} InsertBelow<T>(ys: seq<T>, x: T, b: T, cmp: (T, T) -> int)
    requires forall i :: 0 <= i < |ys| ==> cmp(ys[i], b) <= 0
    requires cmp(x, b) <= 0
    ensures forall i :: 0 <= i < |ys| + 1 ==> cmp(Insert(ys, x, cmp)[i], b) <= 0
  {
    if ys != [] {
      var init, last := ys[..|ys| - 1], ys[|ys| - 1];
      if cmp(last, x) > 0 {
        InsertBelow(init, x, b, cmp);
      }
    }
  }

  /** Sorting keeps exactly the elements it was given. */
  lemma SortMember<T>(s: seq<T>, cmp: (T, T) -> int, x: T)
    ensures x in Sort(s, cmp) <==> x in s
  {
    SortPermutes(s, cmp);
    SameElements(s, Sort(s, cmp));
  }

  lemma {:induction false} InsertSorted<T(!new)>(ys: seq<T>, x: T, cmp: (T, T) -> int)
    requires Consistent(cmp) && Sorted(ys, cmp)
    ensures Sorted(Insert(ys, x, cmp), cmp)
  {
    if ys != [] {
      var init, last := ys[..|ys| - 1], ys[|ys| - 1];
      if cmp(last, x) <= 0 {
        assert forall i :: 0 <= i < |ys| ==> cmp(ys[i], last) <= 0;
        SortedSnoc(ys, x, cmp);
      } else {
        assert Sorted(init, cmp);
        InsertSorted(init, x, cmp);
        assert cmp(x, last) <= 0;
        InsertBelow(init, x, last, cmp);
        SortedSnoc(Insert(init, x, cmp), last, cmp);
      }
    }
  }

  /** The insertion sort orders its input. */
  lemma {:induction false} SortSorted<T(!new)>(s: seq<T>, cmp: (T, T) -> int)
    requires Consistent(cmp)
    ensures Sorted(Sort(s, cmp), cmp)
  {
    if s != [] {
      SortSorted(s[..|s| - 1], cmp);
      InsertSorted(Sort(s[..|s| - 1], cmp), s[|s| - 1], cmp);
    }
  }

  /** Input that is already in order is left as it is. */
  lemma {:induction false} SortOfSorted<T>(s: seq<T>, cmp: (T, T) -> int)
    requires Sorted(s, cmp)
    ensures Sort(s, cmp) == s
  {
    if s != [] {
      var init := s[..|s| - 1];
      assert Sorted(init, cmp);
      SortOfSorted(init, cmp);
      LastSplit(s);
    }
  }

  /** Sorting twice gives what sorting once gives. */
  lemma SortIdempotent<T(!new)>(s: seq<T>, cmp: (T, T) -> int)
    requires Consistent(cmp)
    ensures Sort(Sort(s, cmp), cmp) == Sort(s, cmp)
  {
    SortSorted(s, cmp);
    SortOfSorted(Sort(s, cmp), cmp);
  }

  /** Two elements in strict order are not both equivalent to one key. */
  lemma NotBothEquivalent<T(!new)>(x: T, y: T, k: T, cmp: (T, T) -> int)
    requires Consistent(cmp) && cmp(y, x) > 0
    ensures !(cmp(x, k) == 0 && cmp(y, k) == 0)
  {
  }

  lemma SwapWhenOneEmpty<T>(a: seq<T>, u: seq<T>, v: seq<T>)
    requires u == [] || v == []
    ensures a + u + v == a + v + u
  {
  }

  lemma FilterSingle<T>(x: T, p: T -> bool)
    ensures Filter([x], p) == if p(x) then [x] else []
  {
    assert [x][..0] == [];
  }

  lemma {:induction false} InsertEquivalents<T(!new)>(ys: seq<T>, x: T, k: T, cmp: (T, T) -> int)
    requires Consistent(cmp)
    ensures Equivalents(Insert(ys, x, cmp), k, cmp)
         == Equivalents(ys, k, cmp) + Filter([x], EquivalentTo(k, cmp))
  {
    var p := EquivalentTo(k, cmp);
    if ys == [] {
      assert Insert(ys, x, cmp) == [] + [x];
      FilterAppend([], [x], p);
    } else {
      var init, last := ys[..|ys| - 1], ys[|ys| - 1];
      assert ys == init + [last];
      if cmp(last, x) <= 0 {
        FilterAppend(ys, [x], p);
      } else {
        var fx, fl := Filter([x], p), Filter([last], p);
        InsertEquivalents(init, x, k, cmp);
        FilterAppend(Insert(init, x, cmp), [last], p);
        FilterAppend(init, [last], p);
        FilterSingle(x, p);
        FilterSingle(last, p);
        NotBothEquivalent(x, last, k, cmp);
        SwapWhenOneEmpty(Filter(init, p), fx, fl);
      }
    }
  }

  /**
   * Stability: for every key `k`, the elements ranked equal to `k` come out in
   * the order they went in.
   */
  lemma {:induction false} SortStable<T(!new)>(s: seq<T>, k: T, cmp: (T, T) -> int)
    requires Consistent(cmp)
    ensures Equivalents(Sort(s, cmp), k, cmp) == Equivalents(s, k, cmp)
  {
    if s != [] {
      var init, last := s[..|s| - 1], s[|s| - 1];
      SortStable(init, k, cmp);
      InsertEquivalents(Sort(init, cmp), last, k, cmp);
      SortStableStep(s, k, cmp);
    }
  }

  /** The inductive step of `SortStable`, apart from the facts that need `Consistent`. */
  lemma SortStableStep<T>(s: seq<T>, k: T, cmp: (T, T) -> int)
    requires s != []
    requires Equivalents(Sort(s[..|s| - 1], cmp), k, cmp) == Equivalents(s[..|s| - 1], k, cmp)
    requires Equivalents(Insert(Sort(s[..|s| - 1], cmp), s[|s| - 1], cmp), k, cmp)
          == Equivalents(Sort(s[..|s| - 1], cmp), k, cmp) + Filter([s[|s| - 1]], EquivalentTo(k, cmp))
    ensures Equivalents(Sort(s, cmp), k, cmp) == Equivalents(s, k, cmp)
  {
    var init, last := s[..|s| - 1], s[|s| - 1];
    var p := EquivalentTo(k, cmp);
    FilterAppend(init, [last], p);
    calc {
      Equivalents(Sort(s, cmp), k, cmp);
      Equivalents(Insert(Sort(init, cmp), last, cmp), k, cmp);
      Filter(init, p) + Filter([last], p);
      Filter(init + [last], p);
      { LastSplit(s); }
      Filter(s, p);
    }
  }

  /** One step of the inner loop of `SortInPlace`: `x` moves left past `ys[j - 1]`. */
  lemma InsertShift<T>(ys: seq<T>, x: T, j: int, cmp: (T, T) -> int)
    requires 0 < j <= |ys| && cmp(ys[j - 1], x) > 0
    ensures Insert(ys[..j], x, cmp) + ys[j..] == Insert(ys[..j - 1], x, cmp) + ys[j - 1..]
  {
    assert ys[..j][..j - 1] == ys[..j - 1];
    assert ys[j - 1..] == [ys[j - 1]] + ys[j..];
  }

  /** Where the inner loop of `SortInPlace` stops, `x` goes. */
  lemma InsertStop<T>(ys: seq<T>, x: T, j: int, cmp: (T, T) -> int)
    requires 0 <= j <= |ys| && (j == 0 || cmp(ys[j - 1], x) <= 0)
    ensures Insert(ys[..j], x, cmp) == ys[..j] + [x]
  {
  }

  lemma SortStep<T>(s: seq<T>, i: int, cmp: (T, T) -> int)
    requires 0 <= i < |s|
    ensures Sort(s[..i + 1], cmp) == Insert(Sort(s[..i], cmp), s[i], cmp)
  {
    assert s[..i + 1][..i] == s[..i];
  }

  /** The array after the inner loop of `InsertInPlace`, read as a sequence. */
  lemma Assemble<T>(after: seq<T>, sorted: seq<T>, x: T, j: int)
    requires 0 <= j <= |sorted| < |after|
    requires forall k :: 0 <= k < j ==> after[k] == sorted[k]
    requires after[j] == x
    requires forall k :: j < k <= |sorted| ==> after[k] == sorted[k - 1]
    ensures after[..|sorted| + 1] == sorted[..j] + [x] + sorted[j..]
  {
  }

  /**
   * One pass of the insertion sort: `a[..i]` is already in order; shift the
   * elements that sort strictly after `a[i]` one place right and drop `a[i]`
   * into the gap, so equal elements never pass each other.
   */
  method InsertInPlace<T>(a: array<T>, i: int, cmp: (T, T) -> int)
    requires 0 <= i < a.Length
    modifies a
    ensures a[..i + 1] == Insert(old(a[..i]), old(a[i]), cmp)
    ensures forall k :: i < k < a.Length ==> a[k] == old(a[k])
  {
    ghost var sorted := a[..i];
    var x := a[i];
    var j := i;
    assert sorted[..i] == sorted;
    while j > 0 && cmp(a[j - 1], x) > 0
      invariant 0 <= j <= i
      invariant forall k :: 0 <= k < j ==> a[k] == sorted[k]
      invariant forall k :: j < k <= i ==> a[k] == sorted[k - 1]
      invariant forall k :: i < k < a.Length ==> a[k] == old(a[k])
      invariant Insert(sorted, x, cmp) == Insert(sorted[..j], x, cmp) + sorted[j..]
    {
      InsertShift(sorted, x, j, cmp);
      a[j] := a[j - 1];
      j := j - 1;
    }
    InsertStop(sorted, x, j, cmp);
    a[j] := x;
    Assemble(a[..], sorted, x, j);
    assert a[..i + 1] == a[..][..|sorted| + 1];
  }

  /** `a.sort(cmp)`: reorders `a` into exactly `Sort` of its old contents. */
  method SortInPlace<T>(a: array<T>, cmp: (T, T) -> int)
    modifies a
    ensures a[..] == Sort(old(a[..]), cmp)
  {
    ghost var input := a[..];
    var i := 0;
    while i < a.Length
      invariant 0 <= i <= a.Length
      invariant a[..i] == Sort(input[..i], cmp)
      invariant forall k :: i <= k < a.Length ==> a[k] == input[k]
    {
      SortStep(input, i, cmp);
      InsertInPlace(a, i, cmp);
      i := i + 1;
    }
    assert a[..] == a[..a.Length] && input == input[..a.Length];
  }
}
