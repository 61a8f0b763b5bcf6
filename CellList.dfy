/** The covering cell list of one raster cell, made canonical by `Vec::sort`
    followed by `Vec::dedup` (generate.rs). Ids are raw u64 values ordered as
    integers. */
module CellList {
  import opened ByteOrder

  predicate Sorted(s: seq<uint64>)
  {
    forall i, j :: 0 <= i < j < |s| ==> s[i] <= s[j]
  }

  predicate StrictlyAscending(s: seq<uint64>)
  {
    forall i, j :: 0 <= i < j < |s| ==> s[i] < s[j]
  }

  // ---------------------------------------------------------------------------
  // Reference definitions

  /** x inserted into a sorted sequence before the first larger element. */
  function InsertSorted(x: uint64, s: seq<uint64>): (r: seq<uint64>)
    requires Sorted(s)
    ensures Sorted(r) && multiset(r) == multiset(s) + multiset{x}
  {
    if |s| == 0 then [x]
    else if x <= s[0] then
      SortedCons(x, s);
      assert s == [s[0]] + s[1..];
      [x] + s
    else
      SortedTail(s);
      var t := InsertSorted(x, s[1..]);
      BoundedBelow(s[0], x, s[1..], t);
      SortedCons(s[0], t);
      MultisetOfTail(s);
      [s[0]] + t
  }

  /** Prepending a lower bound keeps a sequence sorted. */
  lemma SortedCons(y: uint64, t: seq<uint64>)
    requires Sorted(t) && forall k :: 0 <= k < |t| ==> y <= t[k]
    ensures Sorted([y] + t)
  {
  }

  /** A lower bound of x and of every element of s bounds every element of t,
      when t holds the elements of s and x. */
  lemma BoundedBelow(y: uint64, x: uint64, s: seq<uint64>, t: seq<uint64>)
    requires y <= x && forall k :: 0 <= k < |s| ==> y <= s[k]
    requires multiset(t) == multiset(s) + multiset{x}
    ensures forall k :: 0 <= k < |t| ==> y <= t[k]
  {
    forall k | 0 <= k < |t| ensures y <= t[k] {
      assert t[k] in multiset(t);
      if t[k] != x {
        assert t[k] in multiset(s);
      }
    }
  }

  /** The ascending arrangement of s. */
  function SortSeq(s: seq<uint64>): (r: seq<uint64>)
    ensures Sorted(r) && multiset(r) == multiset(s)
  {
    if |s| == 0 then []
    else
      assert s == [s[0]] + s[1..];
      InsertSorted(s[0], SortSeq(s[1..]))
  }

  /** `Vec::dedup`: every run of equal adjacent elements collapsed to one. */
  function Dedup(s: seq<uint64>): (r: seq<uint64>)
    ensures |s| == 0 <==> |r| == 0
    ensures |s| > 0 ==> r[|r| - 1] == s[|s| - 1]
  {
    if |s| == 0 then []
    else
      var d := Dedup(s[..|s| - 1]);
      if |d| > 0 && d[|d| - 1] == s[|s| - 1] then d else d + [s[|s| - 1]]
  }

  /** The list `tessalate_grid` returns for a covering-query output. */
  function Canonical(s: seq<uint64>): seq<uint64>
  {
    Dedup(SortSeq(s))
  }

  // ---------------------------------------------------------------------------
  // Properties of the reference definitions

  /** Dedup keeps exactly the elements it is given. */
  lemma {:induction false} DedupMembers(s: seq<uint64>)
    ensures forall x :: x in Dedup(s) <==> x in s
  {
    if |s| > 0 {
      DedupMembers(s[..|s| - 1]);
      assert s == s[..|s| - 1] + [s[|s| - 1]];
    }
  }

  /** On any input, sorted or not, no two neighbours of the result are equal. */
  lemma {:induction false} DedupNoAdjacentRepeats(s: seq<uint64>)
    ensures forall i :: 0 < i < |Dedup(s)| ==> Dedup(s)[i - 1] != Dedup(s)[i]
  {
    if |s| > 0 {
      DedupNoAdjacentRepeats(s[..|s| - 1]);
    }
  }

  /** Dedup of a sorted sequence is strictly ascending. */
  lemma {:induction false} DedupSortedStrict(s: seq<uint64>)
    requires Sorted(s)
    ensures StrictlyAscending(Dedup(s))
  {
    if |s| > 0 {
      var p := s[..|s| - 1];
      assert Sorted(p);
      DedupSortedStrict(p);
      if |p| > 0 {
        assert Dedup(p)[|Dedup(p)| - 1] == p[|p| - 1] <= s[|s| - 1];
      }
    }
  }

  /** The canonical list is strictly ascending, so it is sorted and holds no
      duplicate, and it holds exactly the ids of the covering-query output. */
  lemma CanonicalProperties(s: seq<uint64>)
    ensures StrictlyAscending(Canonical(s))
    ensures forall x :: x in Canonical(s) <==> x in s
  {
    DedupSortedStrict(SortSeq(s));
    DedupMembers(SortSeq(s));
    assert forall x :: x in SortSeq(s) <==> x in multiset(SortSeq(s));
  }

  /** The head of a sorted sequence is its least element. */
  lemma SortedHeadIsLeast(a: seq<uint64>, y: uint64)
    requires Sorted(a) && y in multiset(a)
    ensures a[0] <= y
  {
    var j :| 0 <= j < |a| && a[j] == y;
  }

  lemma MultisetOfTail(a: seq<uint64>)
    requires |a| > 0
    ensures multiset(a[1..]) == multiset(a) - multiset{a[0]}
  {
    assert a == [a[0]] + a[1..];
  }

  /** Sorting is determined by the multiset: two sorted arrangements of the
      same elements are equal. */
  lemma {:induction false} SortedUnique(a: seq<uint64>, b: seq<uint64>)
    requires Sorted(a) && Sorted(b) && multiset(a) == multiset(b)
    ensures a == b
  {
    if |a| == 0 || |b| == 0 {
      assert |multiset(a)| == |a| && |multiset(b)| == |b|;
    } else {
      assert a[0] == b[0] by {
        assert a[0] in multiset(b) && b[0] in multiset(a);
        SortedHeadIsLeast(a, b[0]);
        SortedHeadIsLeast(b, a[0]);
      }
      assert multiset(a[1..]) == multiset(b[1..]) by {
        MultisetOfTail(a);
        MultisetOfTail(b);
      }
      SortedTail(a);
      SortedTail(b);
      SortedUnique(a[1..], b[1..]);
      assert a == [a[0]] + a[1..];
      assert b == [b[0]] + b[1..];
    }
  }

  lemma SortedTail(a: seq<uint64>)
    requires Sorted(a) && |a| > 0
    ensures Sorted(a[1..])
  {
  }

  // ---------------------------------------------------------------------------
  // The in-place operations

  /** `hexes.sort()`: an in-place insertion sort. */
  method SortInPlace(a: array<uint64>)
    modifies a
    ensures a[..] == SortSeq(old(a[..]))
  {
    var i := 0;
    while i < a.Length
      invariant 0 <= i <= a.Length
      invariant forall k, l :: 0 <= k < l < i ==> a[k] <= a[l]
      invariant multiset(a[..]) == old(multiset(a[..]))
    {
      InsertLast(a, i);
      i := i + 1;
    }
    assert Sorted(a[..]);
    SortedUnique(a[..], SortSeq(old(a[..])));
  }

  /** One pass of the insertion sort: a[i] moves left past every larger
      element, leaving a[..i+1] sorted. */
  method InsertLast(a: array<uint64>, i: nat)
    requires i < a.Length
    requires forall k, l :: 0 <= k < l < i ==> a[k] <= a[l]
    modifies a
    ensures forall k, l :: 0 <= k < l <= i ==> a[k] <= a[l]
    ensures forall k :: i < k < a.Length ==> a[k] == old(a[k])
    ensures multiset(a[..]) == old(multiset(a[..]))
  {
    var j := i;
    while j > 0 && a[j - 1] > a[j]
      invariant 0 <= j <= i
      invariant forall k :: i < k < a.Length ==> a[k] == old(a[k])
      invariant forall k, l :: 0 <= k < l <= i && k != j && l != j ==> a[k] <= a[l]
      invariant forall l :: j < l <= i ==> a[j] < a[l]
      invariant multiset(a[..]) == old(multiset(a[..]))
    {
      Swap(a, j - 1, j);
      j := j - 1;
    }
    assert forall k :: 0 <= k < j ==> a[k] <= a[j] by {
      if j > 0 {
        assert forall k :: 0 <= k < j - 1 ==> a[k] <= a[j - 1];
      }
    }
  }

  method Swap(a: array<uint64>, i: nat, j: nat)
    requires i < j < a.Length
    modifies a
    ensures a[i] == old(a[j]) && a[j] == old(a[i])
    ensures forall k :: 0 <= k < a.Length && k != i && k != j ==> a[k] == old(a[k])
    ensures multiset(a[..]) == old(multiset(a[..]))
  {
    a[i], a[j] := a[j], a[i];
  }

  /** `hexes.dedup()`: keeps a prefix of the array and reports its length; the
      elements past it are what `Vec::dedup` truncates. */
  method DedupInPlace(a: array<uint64>) returns (len: nat)
    modifies a
    ensures len <= a.Length
    ensures a[..len] == Dedup(old(a[..]))
  {
    if a.Length == 0 {
      return 0;
    }
    ghost var orig := a[..];
    assert Dedup(orig[..1]) == [orig[0]] by {
      assert orig[..1][..0] == [];
    }
    len := 1;
    var read := 1;
    while read < a.Length
      invariant 1 <= len <= read <= a.Length
      invariant a[..len] == Dedup(orig[..read])
      invariant forall k :: read <= k < a.Length ==> a[k] == orig[k]
    {
      ghost var d := a[..len];
      DedupStep(orig, read);
      if a[read] != a[len - 1] {
        a[len] := a[read];
        assert a[..len + 1] == d + [orig[read]];
        len := len + 1;
      }
      read := read + 1;
    }
    assert orig[..read] == orig;
  }

  /** Dedup of one more element: it is dropped exactly when it repeats the
      last kept one. */
  lemma DedupStep(s: seq<uint64>, i: nat)
    requires 0 < i < |s|
    ensures var d := Dedup(s[..i]);
            Dedup(s[..i + 1]) == if d[|d| - 1] == s[i] then d else d + [s[i]]
  {
    assert s[..i + 1][..i] == s[..i];
  }

  /** The cell list of lines 37-45: collect the covering-query output into a
      vector, sort it, deduplicate it. */
  method CollectCells(covering: seq<uint64>) returns (hexes: seq<uint64>)
    ensures hexes == Canonical(covering)
    ensures StrictlyAscending(hexes)
    ensures forall x :: x in hexes <==> x in covering
  {
    var a := new uint64[|covering|](i requires 0 <= i < |covering| => covering[i]);
    assert a[..] == covering;
    SortInPlace(a);
    var len := DedupInPlace(a);
    hexes := a[..len];
    CanonicalProperties(covering);
  }
}
