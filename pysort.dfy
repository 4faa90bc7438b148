/** Python's `list.sort()` on a list of `str`: an in-place sort into nondecreasing
    order under `PyStrings.LexLe`. */
module PySort {
  import opened PyStrings

  /** Every element is `<=` every later one. */
  predicate Sorted(s: seq<string>) {
    forall p, q :: 0 <= p < q < |s| ==> LexLe(s[p], s[q])
  }

  /** Sorts `a` in place; afterwards it is sorted and holds the same strings, each as
      often as before. */
  method SortInPlace(a: array<string>)
    modifies a
    ensures Sorted(a[..])
    ensures multiset(a[..]) == multiset(old(a[..]))
  {
    var i := 0;
    while i < a.Length
      invariant 0 <= i <= a.Length
      invariant forall p, q :: 0 <= p < q < i ==> LexLe(a[p], a[q])
      invariant multiset(a[..]) == multiset(old(a[..]))
    {
      InsertDown(a, i);
      i := i + 1;
    }
  }

  /** `lst.sort()` on a list held as a sequence: the list is placed in an array, sorted
      there in place and read back. */
  method SortList(lst: seq<string>) returns (sorted: seq<string>)
    ensures Sorted(sorted)
    ensures multiset(sorted) == multiset(lst)
    ensures |sorted| == |lst|
  {
    var buf := new string[|lst|](k requires 0 <= k < |lst| => lst[k]);
    assert buf[..] == lst;
    SortInPlace(buf);
    sorted := buf[..];
    assert |multiset(sorted)| == |multiset(lst)|;
  }

  /** Given `a[..i]` sorted, moves `a[i]` down past every larger element in front of
      it, so that `a[..i + 1]` is sorted. */
  method InsertDown(a: array<string>, i: nat)
    requires i < a.Length
    requires forall p, q :: 0 <= p < q < i ==> LexLe(a[p], a[q])
    modifies a
    ensures forall p, q :: 0 <= p < q <= i ==> LexLe(a[p], a[q])
    ensures multiset(a[..]) == multiset(old(a[..]))
    ensures a[i + 1..] == old(a[i + 1..])
  {
    var j := i;
    while j > 0 && !LexLe(a[j - 1], a[j])
      invariant 0 <= j <= i
      invariant forall p, q :: 0 <= p < q <= i && p != j && q != j ==> LexLe(a[p], a[q])
      invariant forall q :: j < q <= i ==> LexLe(a[j], a[q])
      invariant multiset(a[..]) == multiset(old(a[..]))
      invariant a[i + 1..] == old(a[i + 1..])
    {
      LexLeTotal(a[j - 1], a[j]);
      a[j - 1], a[j] := a[j], a[j - 1];
      j := j - 1;
    }
    forall p, q | 0 <= p < q <= i
      ensures LexLe(a[p], a[q])
    {
      if q == j && p < j - 1 {
        LexLeTrans(a[p], a[j - 1], a[j]);
      }
    }
  }

  /** Two sorted permutations of one list start with the same element. */
  lemma SortedSameHead(x: seq<string>, y: seq<string>)
    requires Sorted(x) && Sorted(y)
    requires multiset(x) == multiset(y)
    requires x != []
    ensures y != [] && x[0] == y[0]
  {
    assert x[0] in multiset(y);
    var k :| 0 <= k < |y| && y[k] == x[0];
    assert y[0] in multiset(x);
    var m :| 0 <= m < |x| && x[m] == y[0];
    LexLeRefl(x[0]);
    assert LexLe(y[0], x[0]);
    assert LexLe(x[0], y[0]);
    LexLeAntisym(x[0], y[0]);
  }

  /** A sorted list is determined by its elements and their multiplicities: any two
      sorted permutations of one list are equal, so the list `SortInPlace` produces is
      the one any other correct sort, Python's own included, would produce. */
  lemma {:induction false} SortedUnique(x: seq<string>, y: seq<string>)
    requires Sorted(x) && Sorted(y)
    requires multiset(x) == multiset(y)
    ensures x == y
    decreases |x|
  {
    if x != [] {
      SortedSameHead(x, y);
      assert x == [x[0]] + x[1..];
      assert y == [y[0]] + y[1..];
      assert multiset(x[1..]) == multiset(x) - multiset{x[0]};
      assert multiset(y[1..]) == multiset(y) - multiset{y[0]};
      SortedUnique(x[1..], y[1..]);
    } else {
      assert |multiset(y)| == 0;
    }
  }
}
