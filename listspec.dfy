/**
 * Reference definitions, on plain sequences of strings, of what the queue's
 * in-place algorithms compute: reversal, the recursive merge of queue.c
 * (ties taken from the right list), and the top-down merge sort that splits
 * a list of n elements into its first n/2 and its last n - n/2.
 */
module ListSpec {
  import opened CStrings

  function Reverse<T>(s: seq<T>): (r: seq<T>)
    ensures |r| == |s|
  {
    if s == [] then [] else Reverse(s[1..]) + [s[0]]
  }

  /** Position k of the reversal holds position |s|-1-k of the original. */
  lemma {:induction false} ReverseAt<T>(s: seq<T>, k: nat)
    requires k < |s|
    ensures Reverse(s)[k] == s[|s| - 1 - k]
  {
    if k < |s| - 1 {
      ReverseAt(s[1..], k);
    }
  }

  /** Reversing twice restores the original order. */
  lemma ReverseReverse<T>(s: seq<T>)
    ensures Reverse(Reverse(s)) == s
  {
    forall k | 0 <= k < |s|
      ensures Reverse(Reverse(s))[k] == s[k]
    {
      ReverseAt(Reverse(s), k);
      ReverseAt(s, |s| - 1 - k);
    }
  }

  /** Reversal only reorders: it keeps every element with its multiplicity. */
  lemma {:induction false} ReversePermutes<T>(s: seq<T>)
    ensures multiset(Reverse(s)) == multiset(s)
  {
    if s != [] {
      ReversePermutes(s[1..]);
      assert s == [s[0]] + s[1..];
    }
  }

  /** Non-decreasing under strcasecmp, for every pair of positions. */
  ghost predicate Sorted(s: seq<CString>)
  {
    forall i, j :: 0 <= i < j < |s| ==> StrCaseCmp(s[i], s[j]) <= 0
  }

  /** merge of queue.c: take the left head only when it is strictly smaller. */
  function Merge(a: seq<CString>, b: seq<CString>): seq<CString>
    decreases |a| + |b|
  {
    if a == [] then b
    else if b == [] then a
    else if StrCaseCmp(a[0], b[0]) < 0 then [a[0]] + Merge(a[1..], b)
    else [b[0]] + Merge(a, b[1..])
  }

  /** Merging moves elements and neither loses nor duplicates any. */
  lemma {:induction false} MergePermutes(a: seq<CString>, b: seq<CString>)
    ensures multiset(Merge(a, b)) == multiset(a + b)
    decreases |a| + |b|
  {
    if a != [] && b != [] {
      if StrCaseCmp(a[0], b[0]) < 0 {
        MergePermutes(a[1..], b);
        assert Merge(a, b) == [a[0]] + Merge(a[1..], b);
        assert a + b == [a[0]] + (a[1..] + b);
      } else {
        var t := b[1..];
        MergePermutes(a, t);
        assert Merge(a, b) == [b[0]] + Merge(a, t);
        assert b == [b[0]] + t;
        assert multiset(a + b) == multiset(a) + multiset{b[0]} + multiset(t);
        assert multiset(a + t) == multiset(a) + multiset(t);
      }
    }
  }

  /** A sorted sequence stays sorted with an element in front that no element beats. */
  lemma ConsSorted(h: CString, t: seq<CString>)
    requires Sorted(t)
    requires forall x :: x in t ==> StrCaseCmp(h, x) <= 0
    ensures Sorted([h] + t)
  {
    var s := [h] + t;
    forall i, j | 0 <= i < j < |s|
      ensures StrCaseCmp(s[i], s[j]) <= 0
    {
      if i > 0 {
        assert s[i] == t[i - 1] && s[j] == t[j - 1];
      } else {
        assert s[j] == t[j - 1];
      }
    }
  }

  /** An element no greater than the first of a sorted sequence is no greater than any of it. */
  lemma LowerBoundSorted(h: CString, s: seq<CString>)
    requires Sorted(s) && s != [] && StrCaseCmp(h, s[0]) <= 0
    ensures forall x :: x in s ==> StrCaseCmp(h, x) <= 0
  {
    forall x | x in s
      ensures StrCaseCmp(h, x) <= 0
    {
      var j :| 0 <= j < |s| && s[j] == x;
      if j > 0 {
        StrCaseCmpTransitive(h, s[0], x);
      }
    }
  }

  /** An element no greater than the heads of two sorted inputs is no greater than anything in their merge. */
  lemma LowerBoundMerge(h: CString, a: seq<CString>, b: seq<CString>)
    requires Sorted(a) && Sorted(b)
    requires a != [] ==> StrCaseCmp(h, a[0]) <= 0
    requires b != [] ==> StrCaseCmp(h, b[0]) <= 0
    ensures forall x :: x in Merge(a, b) ==> StrCaseCmp(h, x) <= 0
  {
    MergePermutes(a, b);
    if a != [] {
      LowerBoundSorted(h, a);
    }
    if b != [] {
      LowerBoundSorted(h, b);
    }
    forall x | x in Merge(a, b)
      ensures StrCaseCmp(h, x) <= 0
    {
      assert x in multiset(a + b);
      assert x in a + b;
    }
  }

  /** The merge of two sorted sequences is sorted. */
  lemma {:induction false} MergeSorted(a: seq<CString>, b: seq<CString>)
    requires Sorted(a) && Sorted(b)
    ensures Sorted(Merge(a, b))
    decreases |a| + |b|
  {
    if a != [] && b != [] {
      if StrCaseCmp(a[0], b[0]) < 0 {
        MergeSorted(a[1..], b);
        LowerBoundMerge(a[0], a[1..], b);
        ConsSorted(a[0], Merge(a[1..], b));
      } else {
        MergeSorted(a, b[1..]);
        StrCaseCmpAntisymmetric(a[0], b[0]);
        LowerBoundMerge(b[0], a, b[1..]);
        ConsSorted(b[0], Merge(a, b[1..]));
      }
    }
  }

  /** mergeSortList of queue.c: split after the first |s|/2 elements, sort both parts, merge. */
  function MergeSort(s: seq<CString>): seq<CString>
    decreases |s|
  {
    if |s| <= 1 then s
    else Merge(MergeSort(s[..|s| / 2]), MergeSort(s[|s| / 2..]))
  }

  /** The merge sort returns a sorted sequence. */
  lemma {:induction false} MergeSortSorted(s: seq<CString>)
    ensures Sorted(MergeSort(s))
    decreases |s|
  {
    if |s| > 1 {
      var h := |s| / 2;
      MergeSortSorted(s[..h]);
      MergeSortSorted(s[h..]);
      MergeSorted(MergeSort(s[..h]), MergeSort(s[h..]));
    }
  }

  /** Cutting a sequence anywhere splits its multiset into the two parts' multisets. */
  lemma SplitMultiset<T>(s: seq<T>, h: nat)
    requires h <= |s|
    ensures multiset(s) == multiset(s[..h]) + multiset(s[h..])
  {
    assert s == s[..h] + s[h..];
  }

  /** The merge sort returns a permutation of its input. */
  lemma {:induction false} MergeSortPermutes(s: seq<CString>)
    ensures multiset(MergeSort(s)) == multiset(s)
    decreases |s|
  {
    if |s| > 1 {
      var h := |s| / 2;
      var l, r := MergeSort(s[..h]), MergeSort(s[h..]);
      assert MergeSort(s) == Merge(l, r);
      MergeSortPermutes(s[..h]);
      MergeSortPermutes(s[h..]);
      MergePermutes(l, r);
      SplitMultiset(l + r, |l|);
      assert (l + r)[..|l|] == l && (l + r)[|l|..] == r;
      SplitMultiset(s, h);
    }
  }

  /** Example: "b", "a", "c" sort to "a", "b", "c". */
  lemma SortExample()
    ensures MergeSort(["b", "a", "c"]) == ["a", "b", "c"]
  {
    var s: seq<CString> := ["b", "a", "c"];
    assert s[..1] == ["b"] && s[1..] == ["a", "c"];
    assert ["a", "c"][..1] == ["a"] && ["a", "c"][1..] == ["c"];
    assert StrCaseCmp("a", "c") < 0;
    assert MergeSort(["a", "c"]) == Merge(["a"], ["c"]) == ["a", "c"];
    assert StrCaseCmp("b", "a") > 0 && StrCaseCmp("b", "c") < 0;
    assert Merge(["b"], ["c"]) == ["b", "c"];
    assert Merge(["b"], ["a", "c"]) == ["a", "b", "c"];
  }

  /**
   * The sort is not stable: "ab" before "AB" compare equal, and the tie is
   * taken from the right list, so the two change places.
   */
  lemma SortNotStable()
    ensures StrCaseCmp("ab", "AB") == 0
    ensures MergeSort(["ab", "AB"]) == ["AB", "ab"]
  {
    var s: seq<CString> := ["ab", "AB"];
    assert s[..1] == ["ab"] && s[1..] == ["AB"];
    assert StrCaseCmp("ab", "AB") == 0;
    assert Merge(["ab"], ["AB"]) == ["AB", "ab"];
  }
}
