/** Quicksort in place with a caller's comparison (quick_sort.c). */
module QuickSort {
  import opened Orders

  ghost predicate Ascending<T>(s: seq<T>, cmp: (T, T) -> int) {
    forall i, j :: 0 <= i < j < |s| ==> cmp(s[i], s[j]) <= 0
  }

  ghost predicate AllLeft<T>(s: seq<T>, p: T, cmp: (T, T) -> int) {
    forall i :: 0 <= i < |s| ==> cmp(s[i], p) <= 0
  }

  ghost predicate AllRight<T>(s: seq<T>, p: T, cmp: (T, T) -> int) {
    forall i :: 0 <= i < |s| ==> cmp(p, s[i]) <= 0
  }

  /** Outside low to high nothing changed, and inside the elements changed places only. */
  twostate predicate Within<T>(a: array<T>, low: int, high: int)
    requires 0 <= low <= high + 1 <= a.Length
    reads a
  {
    && a[..low] == old(a[..low]) && a[high + 1..] == old(a[high + 1..])
    && multiset(a[low..high + 1]) == old(multiset(a[low..high + 1]))
  }

  method Swap<T>(a: array<T>, i: int, j: int, ghost low: int, ghost high: int)
    requires 0 <= low <= i < j <= high < a.Length
    modifies a
    ensures Within(a, low, high)
    ensures a[i] == old(a[j]) && a[j] == old(a[i])
    ensures forall k :: 0 <= k < a.Length && k != i && k != j ==> a[k] == old(a[k])
  {
    ghost var s := a[low..high + 1];
    a[i], a[j] := a[j], a[i];
    assert a[low..high + 1] == s[i - low := s[j - low]][j - low := s[i - low]];
  }

  /** Between i and j nothing is known yet; the elements before i are at most p, those behind j at
      least p. */
  ghost predicate Parted<T>(a: array<T>, low: int, i: int, j: int, high: int, p: T, cmp: (T, T) -> int)
    requires 0 <= low <= i <= j <= high < a.Length
    reads a
  {
    && (forall k :: low <= k < i ==> cmp(a[k], p) <= 0)
    && (forall k :: j < k <= high ==> cmp(p, a[k]) <= 0)
  }

  /** The first inner loop: the pivot is at i, and changes places with a smaller element from the
      right. */
  method FromRight<T(!new)>(a: array<T>, low: int, i0: int, j0: int, high: int, cmp: (T, T) -> int, ghost p: T)
    returns (i: int, j: int)
    requires 0 <= low <= i0 < j0 <= high < a.Length && Preorder(cmp)
    requires a[i0] == p && Parted(a, low, i0, j0, high, p, cmp)
    modifies a
    ensures i0 <= i <= j <= j0 && j - i < j0 - i0 && Within(a, low, high)
    ensures a[j] == p && Parted(a, low, i, j, high, p, cmp)
  {
    hide Preorder;
    i, j := i0, j0;
    while i < j
      invariant i == i0 && i <= j <= j0 && unchanged(a) && Parted(a, low, i, j, high, p, cmp)
    {
      if cmp(a[i], a[j]) > 0 {
        Flip(cmp, a[i], a[j]);
        Swap(a, i, j, low, high);
        i := i + 1;
        return;
      }
      j := j - 1;
    }
  }

  /** The second inner loop: the pivot is at j, and changes places with a greater element from the
      left. */
  method FromLeft<T(!new)>(a: array<T>, low: int, i0: int, j0: int, high: int, cmp: (T, T) -> int, ghost p: T)
    returns (i: int, j: int)
    requires 0 <= low <= i0 <= j0 <= high < a.Length && Preorder(cmp)
    requires a[j0] == p && Parted(a, low, i0, j0, high, p, cmp)
    modifies a
    ensures i0 <= i <= j <= j0 && Within(a, low, high)
    ensures a[i] == p && Parted(a, low, i, j, high, p, cmp)
  {
    hide Preorder;
    i, j := i0, j0;
    while i < j
      invariant j == j0 && i0 <= i <= j && unchanged(a) && Parted(a, low, i, j, high, p, cmp)
    {
      if cmp(a[i], a[j]) > 0 {
        Flip(cmp, a[i], a[j]);
        Swap(a, i, j, low, high);
        j := j - 1;
        return;
      }
      i := i + 1;
    }
  }

  /** One pass: the first element ends up between the elements before it and those behind it. */
  method QuickSortOnce<T(!new)>(a: array<T>, low: int, high: int, cmp: (T, T) -> int) returns (m: int)
    requires 0 <= low <= high < a.Length && Preorder(cmp)
    modifies a
    ensures low <= m <= high && Within(a, low, high) && a[m] == old(a[low])
    ensures AllLeft(a[low..m], a[m], cmp) && AllRight(a[m + 1..high + 1], a[m], cmp)
  {
    hide Preorder;
    ghost var p := a[low];
    var i, j := low, high;
    while i < j
      invariant low <= i <= j <= high && Within(a, low, high) && a[i] == p && Parted(a, low, i, j, high, p, cmp)
      decreases j - i
    {
      i, j := FromRight(a, low, i, j, high, cmp, p);
      i, j := FromLeft(a, low, i, j, high, cmp, p);
    }
    m := i;
  }

  /** Sorting is about the elements, not their places. */
  lemma StillLeft<T(!new)>(s: seq<T>, s': seq<T>, p: T, cmp: (T, T) -> int)
    requires multiset(s) == multiset(s')
    ensures AllLeft(s, p, cmp) ==> AllLeft(s', p, cmp)
    ensures AllRight(s, p, cmp) ==> AllRight(s', p, cmp)
  {
    forall i | 0 <= i < |s'| ensures s'[i] in s {
      assert s'[i] in multiset(s');
    }
  }

  /** Two sorted parts with the element between them. */
  lemma JoinAscending<T(!new)>(l: seq<T>, p: T, r: seq<T>, cmp: (T, T) -> int)
    requires Preorder(cmp) && Ascending(l, cmp) && Ascending(r, cmp) && AllLeft(l, p, cmp) && AllRight(r, p, cmp)
    ensures Ascending(l + [p] + r, cmp)
  {
    var s := l + [p] + r;
    forall i, j | 0 <= i < j < |s| ensures cmp(s[i], s[j]) <= 0 {
      assert i < |l| ==> s[i] == l[i] && cmp(l[i], p) <= 0;
      assert j > |l| ==> s[j] == r[j - |l| - 1] && cmp(p, r[j - |l| - 1]) <= 0;
    }
  }

  /** A slice is its two ends and what is between. */
  lemma Slices<T>(s: seq<T>, low: int, m: int, high: int)
    requires 0 <= low <= m <= high < |s|
    ensures s[low..high + 1] == s[low..m] + [s[m]] + s[m + 1..high + 1]
    ensures s[..m] == s[..low] + s[low..m] && s[m + 1..] == s[m + 1..high + 1] + s[high + 1..]
    ensures multiset(s[low..high + 1]) == multiset(s[low..m]) + multiset{s[m]} + multiset(s[m + 1..high + 1])
  {
    assert s[low..high + 1] == s[low..m] + [s[m]] + s[m + 1..high + 1];
  }

  /** Sorting a part of a part leaves everything else alone. */
  lemma SubWithin<T>(s: seq<T>, s': seq<T>, low: int, high: int, l: int, h: int)
    requires |s| == |s'| && 0 <= low <= l <= h + 1 <= high + 1 <= |s|
    requires s'[..l] == s[..l] && s'[h + 1..] == s[h + 1..] && multiset(s'[l..h + 1]) == multiset(s[l..h + 1])
    ensures s'[..low] == s[..low] && s'[high + 1..] == s[high + 1..]
    ensures multiset(s'[low..high + 1]) == multiset(s[low..high + 1])
  {
    ThreeParts(s, low, high, l, h);
    ThreeParts(s', low, high, l, h);
    assert s'[low..l] == s'[..l][low..] && s[low..l] == s[..l][low..];
    assert s'[h + 1..high + 1] == s'[h + 1..][..high - h] && s[h + 1..high + 1] == s[h + 1..][..high - h];
    assert s'[..low] == s'[..l][..low] && s[..low] == s[..l][..low];
    assert s'[high + 1..] == s'[h + 1..][high - h..] && s[high + 1..] == s[h + 1..][high - h..];
  }

  lemma ThreeParts<T>(s: seq<T>, low: int, high: int, l: int, h: int)
    requires 0 <= low <= l <= h + 1 <= high + 1 <= |s|
    ensures multiset(s[low..high + 1]) == multiset(s[low..l]) + multiset(s[l..h + 1]) + multiset(s[h + 1..high + 1])
  {
    assert s[low..high + 1] == s[low..l] + s[l..h + 1] + s[h + 1..high + 1];
  }

  /** The recursive part: the slice ends up sorted. */
  method QuickSortRange<T(!new)>(a: array<T>, low: int, high: int, cmp: (T, T) -> int)
    requires 0 <= low <= high + 1 <= a.Length && Preorder(cmp)
    modifies a
    ensures Within(a, low, high) && Ascending(a[low..high + 1], cmp)
    decreases high - low + 1
  {
    hide Preorder, AllLeft, AllRight;
    if low < high {
      ghost var s0 := a[..];
      var m := QuickSortOnce(a, low, high, cmp);
      ghost var s1 := a[..];
      QuickSortRange(a, low, m - 1, cmp);
      ghost var s2 := a[..];
      QuickSortRange(a, m + 1, high, cmp);
      ghost var s3 := a[..];
      Sorted(s1, s2, s3, low, m, high, cmp);
    }
  }

  lemma TailSlice<T>(s: seq<T>, c: int, i: int, j: int)
    requires 0 <= c <= i <= j <= |s|
    ensures s[i..j] == s[c..][i - c..j - c] && (c < |s| ==> s[c] == s[c..][0])
  {
  }

  lemma HeadSlice<T>(s: seq<T>, c: int, i: int, j: int)
    requires 0 <= i <= j <= c <= |s|
    ensures s[i..j] == s[..c][i..j] && (c > 0 ==> s[c - 1] == s[..c][c - 1])
  {
  }

  lemma SameTail<T>(s: seq<T>, s': seq<T>, m: int, high: int)
    requires |s| == |s'| && 0 <= m <= high < |s| && s[m..] == s'[m..]
    ensures s[m] == s'[m] && s[m + 1..high + 1] == s'[m + 1..high + 1]
  {
    TailSlice(s, m, m + 1, high + 1);
    TailSlice(s', m, m + 1, high + 1);
  }

  lemma SameHead<T>(s: seq<T>, s': seq<T>, low: int, m: int)
    requires |s| == |s'| && 0 <= low <= m < |s| && s[..m + 1] == s'[..m + 1]
    ensures s[m] == s'[m] && s[low..m] == s'[low..m]
  {
    HeadSlice(s, m + 1, low, m);
    HeadSlice(s', m + 1, low, m);
  }

  /** After both recursive calls. */
  lemma Sorted<T(!new)>(s1: seq<T>, s2: seq<T>, s3: seq<T>, low: int, m: int, high: int, cmp: (T, T) -> int)
    requires |s1| == |s2| == |s3| && 0 <= low <= m <= high < |s1| && Preorder(cmp)
    requires AllLeft(s1[low..m], s1[m], cmp) && AllRight(s1[m + 1..high + 1], s1[m], cmp)
    requires s2[..low] == s1[..low] && s2[m..] == s1[m..] && multiset(s2[low..m]) == multiset(s1[low..m])
    requires Ascending(s2[low..m], cmp)
    requires s3[..m + 1] == s2[..m + 1] && s3[high + 1..] == s2[high + 1..]
    requires multiset(s3[m + 1..high + 1]) == multiset(s2[m + 1..high + 1]) && Ascending(s3[m + 1..high + 1], cmp)
    ensures s3[..low] == s1[..low] && s3[high + 1..] == s1[high + 1..]
    ensures multiset(s3[low..high + 1]) == multiset(s1[low..high + 1])
    ensures Ascending(s3[low..high + 1], cmp)
  {
    hide Preorder, AllLeft, AllRight, Ascending;
    SubWithin(s1, s2, low, high, low, m - 1);
    SubWithin(s2, s3, low, high, m + 1, high);
    SameTail(s1, s2, m, high);
    SameHead(s2, s3, low, m);
    StillLeft(s1[low..m], s3[low..m], s3[m], cmp);
    StillLeft(s1[m + 1..high + 1], s3[m + 1..high + 1], s3[m], cmp);
    JoinAscending(s3[low..m], s3[m], s3[m + 1..high + 1], cmp);
    Slices(s3, low, m, high);
  }

  /** quick_sort: the array in ascending order, with the elements it had. */
  method QuickSort<T(!new)>(a: array<T>, cmp: (T, T) -> int)
    requires Preorder(cmp)
    modifies a
    ensures Ascending(a[..], cmp) && multiset(a[..]) == old(multiset(a[..]))
  {
    if a.Length > 0 {
      QuickSortRange(a, 0, a.Length - 1, cmp);
      assert a[..] == a[0..a.Length] && old(a[..]) == old(a[0..a.Length]);
    }
  }
}
