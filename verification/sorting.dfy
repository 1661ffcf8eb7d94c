/**
 * The hybrid sort that both the catalog loader and the configuration reader
 * use: insertion sort on blocks of 16 elements, then bottom-up merge passes
 * that alternate between the array and a scratch area, two passes per round,
 * so that the result always ends in the array.
 *
 * The comparator is a parameter: `cmp(a, b) <= 0` means "a may stay before b".
 * What the sorter needs of it is that this relation is a total preorder.
 *
 * The imperative methods are tied to pure functions (`InsertionSort`,
 * `Merge`, `MergePass`, `SortBlocks`, `Passes`, `HybridSort`) that follow the
 * same steps on sequences; sortedness and permutation are proved about
 * those functions.
 */
module Sorting {

  /** The comparator orders every pair and is transitive. */
  ghost predicate TotalPreorder<T(!new)>(cmp: (T, T) -> int)
  {
    && (forall a, b :: cmp(a, b) <= 0 || cmp(b, a) <= 0)
    && (forall a, b, c :: cmp(a, b) <= 0 && cmp(b, c) <= 0 ==> cmp(a, c) <= 0)
  }

  ghost predicate Sorted<T>(s: seq<T>, cmp: (T, T) -> int)
  {
    forall p, q :: 0 <= p < q < |s| ==> cmp(s[p], s[q]) <= 0
  }

  function Min(a: int, b: int): int { if a < b then a else b }

  // ---------------------------------------------------------------------
  // Specification functions
  // ---------------------------------------------------------------------

  /** Insert x into t the way the insertion loop does: x moves left past
      every element that compares greater than it. */
  function Insert<T>(t: seq<T>, x: T, cmp: (T, T) -> int): (r: seq<T>)
    ensures |r| == |t| + 1
    decreases |t|
  {
    if t == [] then [x]
    else if cmp(t[|t| - 1], x) > 0 then Insert(t[..|t| - 1], x, cmp) + [t[|t| - 1]]
    else t + [x]
  }

  /** Insertion sort: insert the elements one after the other, left to right. */
  function InsertionSort<T>(s: seq<T>, cmp: (T, T) -> int): (r: seq<T>)
    ensures |r| == |s|
    decreases |s|
  {
    if s == [] then [] else Insert(InsertionSort(s[..|s| - 1], cmp), s[|s| - 1], cmp)
  }

  /** Merge two runs; on a tie the element of the left run goes first. */
  function Merge<T>(a: seq<T>, b: seq<T>, cmp: (T, T) -> int): (r: seq<T>)
    ensures |r| == |a| + |b|
    decreases |a| + |b|
  {
    if a == [] then b
    else if b == [] then a
    else if cmp(a[0], b[0]) <= 0 then [a[0]] + Merge(a[1..], b, cmp)
    else [b[0]] + Merge(a, b[1..], cmp)
  }

  /** First phase: consecutive blocks of width w, each insertion-sorted; the
      last block is cut at the end of the sequence. */
  function SortBlocks<T>(s: seq<T>, w: nat, cmp: (T, T) -> int): (r: seq<T>)
    requires w > 0
    ensures |r| == |s|
    decreases |s|
  {
    if |s| <= w then InsertionSort(s, cmp)
    else InsertionSort(s[..w], cmp) + SortBlocks(s[w..], w, cmp)
  }

  /** One merge pass of width w: runs [i, i+w) and [i+w, i+2w), both cut at
      the end of the sequence, merged pairwise. */
  function MergePass<T>(s: seq<T>, w: nat, cmp: (T, T) -> int): (r: seq<T>)
    requires w > 0
    ensures |r| == |s|
    decreases |s|
  {
    if s == [] then []
    else
      var j := Min(w, |s|);
      var k := Min(2 * w, |s|);
      Merge(s[..j], s[j..k], cmp) + MergePass(s[k..], w, cmp)
  }

  /** The rounds of the second phase: while the width is below the length,
      a pass of width w and a pass of width 2w, then the width is 4w. */
  function Passes<T>(s: seq<T>, w: nat, cmp: (T, T) -> int): (r: seq<T>)
    requires w > 0
    ensures |r| == |s|
    decreases |s| - w
  {
    if w < |s| then Passes(MergePass(MergePass(s, w, cmp), 2 * w, cmp), 4 * w, cmp)
    else s
  }

  const BlockSize: nat := 16

  /** What the whole sort computes. */
  function HybridSort<T>(s: seq<T>, cmp: (T, T) -> int): (r: seq<T>)
    ensures |r| == |s|
  {
    Passes(SortBlocks(s, BlockSize, cmp), BlockSize, cmp)
  }

  /** Every block of width w is sorted. */
  ghost predicate RunsSorted<T>(s: seq<T>, w: nat, cmp: (T, T) -> int)
    requires w > 0
    decreases |s|
  {
    if |s| <= w then Sorted(s, cmp) else Sorted(s[..w], cmp) && RunsSorted(s[w..], w, cmp)
  }

  // ---------------------------------------------------------------------
  // Permutation
  // ---------------------------------------------------------------------

  lemma {:induction false} InsertPerm<T>(t: seq<T>, x: T, cmp: (T, T) -> int)
    ensures multiset(Insert(t, x, cmp)) == multiset(t) + multiset{x}
    decreases |t|
  {
    if t != [] {
      var init, last := t[..|t| - 1], t[|t| - 1];
      assert t == init + [last];
      if cmp(last, x) > 0 {
        InsertPerm(init, x, cmp);
      }
    }
  }

  lemma {:induction false} InsertionSortPerm<T>(s: seq<T>, cmp: (T, T) -> int)
    ensures multiset(InsertionSort(s, cmp)) == multiset(s)
    decreases |s|
  {
    if s != [] {
      var init, last := s[..|s| - 1], s[|s| - 1];
      assert s == init + [last];
      InsertionSortPerm(init, cmp);
      InsertPerm(InsertionSort(init, cmp), last, cmp);
    }
  }

  lemma {:induction false} MergePerm<T>(a: seq<T>, b: seq<T>, cmp: (T, T) -> int)
    ensures multiset(Merge(a, b, cmp)) == multiset(a) + multiset(b)
    decreases |a| + |b|
  {
    if a != [] && b != [] {
      if cmp(a[0], b[0]) <= 0 {
        var m := Merge(a[1..], b, cmp);
        assert Merge(a, b, cmp) == [a[0]] + m;
        MergePerm(a[1..], b, cmp);
        MultisetCons(a);
      } else {
        var m := Merge(a, b[1..], cmp);
        assert Merge(a, b, cmp) == [b[0]] + m;
        MergePerm(a, b[1..], cmp);
        MultisetCons(b);
      }
    }
  }

  lemma MultisetCons<T>(a: seq<T>)
    requires a != []
    ensures multiset(a) == multiset{a[0]} + multiset(a[1..])
  {
    assert a == [a[0]] + a[1..];
  }

  lemma MultisetSplit3<T>(s: seq<T>, j: nat, k: nat)
    requires j <= k <= |s|
    ensures multiset(s) == multiset(s[..j]) + multiset(s[j..k]) + multiset(s[k..])
  {
    assert s == s[..j] + s[j..k] + s[k..];
  }

  lemma {:induction false} SortBlocksPerm<T>(s: seq<T>, w: nat, cmp: (T, T) -> int)
    requires w > 0
    ensures multiset(SortBlocks(s, w, cmp)) == multiset(s)
    decreases |s|
  {
    if |s| <= w {
      InsertionSortPerm(s, cmp);
    } else {
      InsertionSortPerm(s[..w], cmp);
      SortBlocksPerm(s[w..], w, cmp);
      assert s == s[..w] + s[w..];
    }
  }

  lemma {:induction false} MergePassPerm<T>(s: seq<T>, w: nat, cmp: (T, T) -> int)
    requires w > 0
    ensures multiset(MergePass(s, w, cmp)) == multiset(s)
    decreases |s|
  {
    if s != [] {
      var j := Min(w, |s|);
      var k := Min(2 * w, |s|);
      var m, rest := Merge(s[..j], s[j..k], cmp), MergePass(s[k..], w, cmp);
      assert MergePass(s, w, cmp) == m + rest;
      assert multiset(m + rest) == multiset(m) + multiset(rest);
      MergePerm(s[..j], s[j..k], cmp);
      MergePassPerm(s[k..], w, cmp);
      MultisetSplit3(s, j, k);
    }
  }

  lemma {:induction false} PassesPerm<T>(s: seq<T>, w: nat, cmp: (T, T) -> int)
    requires w > 0
    ensures multiset(Passes(s, w, cmp)) == multiset(s)
    decreases |s| - w
  {
    if w < |s| {
      MergePassPerm(s, w, cmp);
      MergePassPerm(MergePass(s, w, cmp), 2 * w, cmp);
      PassesPerm(MergePass(MergePass(s, w, cmp), 2 * w, cmp), 4 * w, cmp);
    }
  }

  // ---------------------------------------------------------------------
  // Sortedness
  // ---------------------------------------------------------------------

  /** Appending b to a sorted sequence keeps it sorted when nothing in it
      compares greater than b. */
  lemma SortedSnoc<T>(a: seq<T>, b: T, cmp: (T, T) -> int)
    requires Sorted(a, cmp)
    requires forall y :: y in multiset(a) ==> cmp(y, b) <= 0
    ensures Sorted(a + [b], cmp)
  {
    forall p, q | 0 <= p < q < |a| + 1
      ensures cmp((a + [b])[p], (a + [b])[q]) <= 0
    {
      if q == |a| {
        assert a[p] in multiset(a);
      }
    }
  }

  /** Prepending b to a sorted sequence keeps it sorted when b compares
      below or equal to everything in it. */
  lemma SortedCons<T>(b: T, a: seq<T>, cmp: (T, T) -> int)
    requires Sorted(a, cmp)
    requires forall y :: y in multiset(a) ==> cmp(b, y) <= 0
    ensures Sorted([b] + a, cmp)
  {
    forall p, q | 0 <= p < q < |a| + 1
      ensures cmp(([b] + a)[p], ([b] + a)[q]) <= 0
    {
      if p == 0 {
        assert a[q - 1] in multiset(a);
      } else {
        assert ([b] + a)[p] == a[p - 1] && ([b] + a)[q] == a[q - 1];
      }
    }
  }

  /** Every element of a sorted sequence is below x when its last one is. */
  lemma BelowLast<T(!new)>(t: seq<T>, x: T, cmp: (T, T) -> int)
    requires TotalPreorder(cmp) && Sorted(t, cmp) && t != []
    requires cmp(t[|t| - 1], x) <= 0
    ensures forall y :: y in multiset(t) ==> cmp(y, x) <= 0
  {
    forall y | y in multiset(t)
      ensures cmp(y, x) <= 0
    {
      var p :| 0 <= p < |t| && t[p] == y;
      assert cmp(t[p], t[|t| - 1]) <= 0 || p == |t| - 1;
    }
  }

  /** Inserting x, which compares greater than last, into the rest keeps
      every element below last. */
  lemma InsertedBelow<T(!new)>(init: seq<T>, last: T, x: T, cmp: (T, T) -> int)
    requires TotalPreorder(cmp) && Sorted(init + [last], cmp)
    requires cmp(last, x) > 0
    ensures forall y :: y in multiset(Insert(init, x, cmp)) ==> cmp(y, last) <= 0
  {
    InsertPerm(init, x, cmp);
    forall y | y in multiset(Insert(init, x, cmp))
      ensures cmp(y, last) <= 0
    {
      if y != x {
        assert y in multiset(init);
        var p :| 0 <= p < |init| && init[p] == y;
        assert (init + [last])[p] == y && (init + [last])[|init|] == last;
      }
    }
  }

  lemma {:induction false} InsertSorted<T(!new)>(t: seq<T>, x: T, cmp: (T, T) -> int)
    requires TotalPreorder(cmp) && Sorted(t, cmp)
    ensures Sorted(Insert(t, x, cmp), cmp)
    decreases |t|
  {
    if t != [] {
      var init, last := t[..|t| - 1], t[|t| - 1];
      assert Sorted(init, cmp);
      if cmp(last, x) > 0 {
        InsertSorted(init, x, cmp);
        assert init + [last] == t;
        InsertedBelow(init, last, x, cmp);
        SortedSnoc(Insert(init, x, cmp), last, cmp);
      } else {
        BelowLast(t, x, cmp);
        SortedSnoc(t, x, cmp);
      }
    }
  }

  lemma {:induction false} InsertionSortSorted<T(!new)>(s: seq<T>, cmp: (T, T) -> int)
    requires TotalPreorder(cmp)
    ensures Sorted(InsertionSort(s, cmp), cmp)
    decreases |s|
  {
    if s != [] {
      InsertionSortSorted(s[..|s| - 1], cmp);
      InsertSorted(InsertionSort(s[..|s| - 1], cmp), s[|s| - 1], cmp);
    }
  }

  /** Everything a merge produces comes from one of its two runs. */
  lemma MergeFrom<T>(a: seq<T>, b: seq<T>, cmp: (T, T) -> int, y: T)
    requires y in multiset(Merge(a, b, cmp))
    ensures y in multiset(a) || y in multiset(b)
  {
    MergePerm(a, b, cmp);
  }

  lemma {:induction false} MergeSorted<T(!new)>(a: seq<T>, b: seq<T>, cmp: (T, T) -> int)
    requires TotalPreorder(cmp) && Sorted(a, cmp) && Sorted(b, cmp)
    ensures Sorted(Merge(a, b, cmp), cmp)
    decreases |a| + |b|
  {
    if a != [] && b != [] {
      if cmp(a[0], b[0]) <= 0 {
        assert Sorted(a[1..], cmp);
        MergeSorted(a[1..], b, cmp);
        forall y | y in multiset(Merge(a[1..], b, cmp))
          ensures cmp(a[0], y) <= 0
        {
          MergeFrom(a[1..], b, cmp, y);
          if y in multiset(a[1..]) {
            var p :| 0 <= p < |a[1..]| && a[1..][p] == y;
            assert a[p + 1] == y;
          } else {
            var p :| 0 <= p < |b| && b[p] == y;
            assert p == 0 || cmp(b[0], b[p]) <= 0;
          }
        }
        SortedCons(a[0], Merge(a[1..], b, cmp), cmp);
      } else {
        assert Sorted(b[1..], cmp);
        MergeSorted(a, b[1..], cmp);
        forall y | y in multiset(Merge(a, b[1..], cmp))
          ensures cmp(b[0], y) <= 0
        {
          MergeFrom(a, b[1..], cmp, y);
          if y in multiset(b[1..]) {
            var p :| 0 <= p < |b[1..]| && b[1..][p] == y;
            assert b[p + 1] == y;
          } else {
            var p :| 0 <= p < |a| && a[p] == y;
            assert p == 0 || cmp(a[0], a[p]) <= 0;
          }
        }
        SortedCons(b[0], Merge(a, b[1..], cmp), cmp);
      }
    }
  }

  lemma {:induction false} SortBlocksRuns<T(!new)>(s: seq<T>, w: nat, cmp: (T, T) -> int)
    requires TotalPreorder(cmp) && w > 0
    ensures RunsSorted(SortBlocks(s, w, cmp), w, cmp)
    decreases |s|
  {
    var r := SortBlocks(s, w, cmp);
    if |s| <= w {
      InsertionSortSorted(s, cmp);
    } else {
      InsertionSortSorted(s[..w], cmp);
      SortBlocksRuns(s[w..], w, cmp);
      assert r[..w] == InsertionSort(s[..w], cmp);
      assert r[w..] == SortBlocks(s[w..], w, cmp);
    }
  }

  /** A merge pass of width w turns sorted runs of width w into sorted runs
      of width 2w. */
  lemma {:induction false} MergePassRuns<T(!new)>(s: seq<T>, w: nat, cmp: (T, T) -> int)
    requires TotalPreorder(cmp) && w > 0 && RunsSorted(s, w, cmp)
    ensures RunsSorted(MergePass(s, w, cmp), 2 * w, cmp)
    decreases |s|
  {
    if s != [] {
      var j := Min(w, |s|);
      var k := Min(2 * w, |s|);
      var m := Merge(s[..j], s[j..k], cmp);
      var r := MergePass(s, w, cmp);
      if |s| <= w {
        assert s[..j] == s;
        assert Sorted(s[j..k], cmp);
      } else {
        assert Sorted(s[..w], cmp);
        var rest := s[w..];
        if |rest| <= w {
          assert s[j..k] == rest;
        } else {
          assert s[j..k] == rest[..w];
          assert Sorted(rest[..w], cmp);
          assert s[k..] == rest[w..];
          MergePassRuns(s[k..], w, cmp);
        }
      }
      MergeSorted(s[..j], s[j..k], cmp);
      assert r == m + MergePass(s[k..], w, cmp);
      if |s| <= 2 * w {
        assert MergePass(s[k..], w, cmp) == [];
        assert r == m;
      } else {
        assert r[..2 * w] == m;
        assert r[2 * w..] == MergePass(s[k..], w, cmp);
      }
    }
  }

  lemma {:induction false} PassesSorted<T(!new)>(s: seq<T>, w: nat, cmp: (T, T) -> int)
    requires TotalPreorder(cmp) && w > 0 && RunsSorted(s, w, cmp)
    ensures Sorted(Passes(s, w, cmp), cmp)
    decreases |s| - w
  {
    if w < |s| {
      MergePassRuns(s, w, cmp);
      MergePassRuns(MergePass(s, w, cmp), 2 * w, cmp);
      PassesSorted(MergePass(MergePass(s, w, cmp), 2 * w, cmp), 4 * w, cmp);
    }
  }

  /** The hybrid sort returns a sorted permutation of its input. */
  lemma HybridSortCorrect<T(!new)>(s: seq<T>, cmp: (T, T) -> int)
    requires TotalPreorder(cmp)
    ensures Sorted(HybridSort(s, cmp), cmp)
    ensures multiset(HybridSort(s, cmp)) == multiset(s)
  {
    SortBlocksRuns(s, BlockSize, cmp);
    PassesSorted(SortBlocks(s, BlockSize, cmp), BlockSize, cmp);
    SortBlocksPerm(s, BlockSize, cmp);
    PassesPerm(SortBlocks(s, BlockSize, cmp), BlockSize, cmp);
  }

  // ---------------------------------------------------------------------
  // Stability
  // ---------------------------------------------------------------------

  /** x and y compare equal both ways: the sort may not reorder them. */
  predicate Equiv<T>(x: T, y: T, cmp: (T, T) -> int)
  {
    cmp(x, y) <= 0 && cmp(y, x) <= 0
  }

  /** The elements of s that compare equal to x, in their order in s. */
  function Ties<T>(s: seq<T>, x: T, cmp: (T, T) -> int): (r: seq<T>)
    ensures |r| <= |s|
    decreases |s|
  {
    if s == [] then []
    else (if Equiv(s[0], x, cmp) then [s[0]] else []) + Ties(s[1..], x, cmp)
  }

  lemma {:induction false} TiesAppend<T>(a: seq<T>, b: seq<T>, x: T, cmp: (T, T) -> int)
    ensures Ties(a + b, x, cmp) == Ties(a, x, cmp) + Ties(b, x, cmp)
    decreases |a|
  {
    if a == [] {
      assert a + b == b;
    } else {
      var h := if Equiv(a[0], x, cmp) then [a[0]] else [];
      assert (a + b)[0] == a[0];
      assert (a + b)[1..] == a[1..] + b;
      TiesAppend(a[1..], b, x, cmp);
      calc {
        Ties(a + b, x, cmp);
        h + Ties(a[1..] + b, x, cmp);
        h + (Ties(a[1..], x, cmp) + Ties(b, x, cmp));
        (h + Ties(a[1..], x, cmp)) + Ties(b, x, cmp);
        Ties(a, x, cmp) + Ties(b, x, cmp);
      }
    }
  }

  lemma {:induction false} TiesNone<T>(s: seq<T>, x: T, cmp: (T, T) -> int)
    requires forall k :: 0 <= k < |s| ==> !Equiv(s[k], x, cmp)
    ensures Ties(s, x, cmp) == []
    decreases |s|
  {
    if s != [] {
      TiesNone(s[1..], x, cmp);
    }
  }

  /** Two elements that tie with the same x compare equal. */
  lemma TiesOrdered<T(!new)>(a: T, b: T, x: T, cmp: (T, T) -> int)
    requires TotalPreorder(cmp)
    ensures Equiv(a, x, cmp) && Equiv(b, x, cmp) ==> cmp(a, b) <= 0
  {
  }

  /** Insertion only moves x past elements that compare greater than it, so
      x stays behind every element it ties with. */
  lemma {:induction false} InsertStable<T(!new)>(t: seq<T>, e: T, x: T, cmp: (T, T) -> int)
    requires TotalPreorder(cmp)
    ensures Ties(Insert(t, e, cmp), x, cmp) == Ties(t, x, cmp) + Ties([e], x, cmp)
    decreases |t|
  {
    if t == [] {
    } else {
      var init, last := t[..|t| - 1], t[|t| - 1];
      assert t == init + [last];
      if cmp(last, e) > 0 {
        InsertStable(init, e, x, cmp);
        TiesAppend(Insert(init, e, cmp), [last], x, cmp);
        TiesAppend(init, [last], x, cmp);
        TiesOrdered(last, e, x, cmp);
      } else {
        TiesAppend(t, [e], x, cmp);
      }
    }
  }

  lemma {:induction false} InsertionSortStable<T(!new)>(s: seq<T>, x: T, cmp: (T, T) -> int)
    requires TotalPreorder(cmp)
    ensures Ties(InsertionSort(s, cmp), x, cmp) == Ties(s, x, cmp)
    decreases |s|
  {
    if s != [] {
      var init, last := s[..|s| - 1], s[|s| - 1];
      InsertionSortStable(init, x, cmp);
      InsertStable(InsertionSort(init, cmp), last, x, cmp);
      assert s == init + [last];
      TiesAppend(init, [last], x, cmp);
    }
  }

  /** Merging takes the left run's element on a tie, so every element of
      the left run that ties with x comes out before those of the right run. */
  lemma ConcatAssoc<T>(p: seq<T>, q: seq<T>, r: seq<T>)
    ensures p + (q + r) == (p + q) + r
  {
  }

  lemma ConcatNil<T>(p: seq<T>)
    ensures [] + p == p
  {
  }

  lemma TiesCons<T>(e: T, s: seq<T>, x: T, cmp: (T, T) -> int)
    ensures Ties([e] + s, x, cmp) == (if Equiv(e, x, cmp) then [e] else []) + Ties(s, x, cmp)
  {
    assert ([e] + s)[0] == e;
    assert ([e] + s)[1..] == s;
  }

  /** When the right run's head ties with x and is taken first, no element of
      the left run ties with x: they all compare greater than that head. */
  lemma LeftHasNoTies<T(!new)>(a: seq<T>, b0: T, x: T, cmp: (T, T) -> int)
    requires TotalPreorder(cmp) && Sorted(a, cmp) && a != []
    requires cmp(a[0], b0) > 0 && Equiv(b0, x, cmp)
    ensures Ties(a, x, cmp) == []
  {
    forall k | 0 <= k < |a|
      ensures !Equiv(a[k], x, cmp)
    {
      TiesOrdered(a[k], b0, x, cmp);
      if k > 0 {
        assert cmp(a[0], a[k]) <= 0;
      }
    }
    TiesNone(a, x, cmp);
  }

  /** Taking the left head first keeps the ties of both runs in order. */
  lemma MergeLeftStable<T>(a: seq<T>, b: seq<T>, x: T, cmp: (T, T) -> int)
    requires a != [] && b != [] && cmp(a[0], b[0]) <= 0
    requires Ties(Merge(a[1..], b, cmp), x, cmp) == Ties(a[1..], x, cmp) + Ties(b, x, cmp)
    ensures Ties(Merge(a, b, cmp), x, cmp) == Ties(a, x, cmp) + Ties(b, x, cmp)
  {
    var h := if Equiv(a[0], x, cmp) then [a[0]] else [];
    var ta, tb := Ties(a[1..], x, cmp), Ties(b, x, cmp);
    TiesCons(a[0], Merge(a[1..], b, cmp), x, cmp);
    assert Ties(Merge(a, b, cmp), x, cmp) == h + (ta + tb);
    assert Ties(a, x, cmp) == h + ta;
    ConcatAssoc(h, ta, tb);
  }

  /** Taking the right head first keeps the ties in order as long as that
      head is no tie or the left run holds none. */
  lemma MergeRightStable<T>(a: seq<T>, b: seq<T>, x: T, cmp: (T, T) -> int)
    requires a != [] && b != [] && cmp(a[0], b[0]) > 0
    requires Ties(Merge(a, b[1..], cmp), x, cmp) == Ties(a, x, cmp) + Ties(b[1..], x, cmp)
    requires Equiv(b[0], x, cmp) ==> Ties(a, x, cmp) == []
    ensures Ties(Merge(a, b, cmp), x, cmp) == Ties(a, x, cmp) + Ties(b, x, cmp)
  {
    var h := if Equiv(b[0], x, cmp) then [b[0]] else [];
    var ta, tb := Ties(a, x, cmp), Ties(b[1..], x, cmp);
    TiesCons(b[0], Merge(a, b[1..], cmp), x, cmp);
    assert Ties(Merge(a, b, cmp), x, cmp) == h + (ta + tb);
    assert Ties(b, x, cmp) == h + tb;
    if h == [] {
      ConcatNil(ta + tb);
      ConcatNil(tb);
    } else {
      ConcatNil(tb);
      ConcatNil(h + tb);
    }
  }

  lemma {:induction false} MergeStable<T(!new)>(a: seq<T>, b: seq<T>, x: T, cmp: (T, T) -> int)
    requires TotalPreorder(cmp) && Sorted(a, cmp)
    ensures Ties(Merge(a, b, cmp), x, cmp) == Ties(a, x, cmp) + Ties(b, x, cmp)
    decreases |a| + |b|
  {
    if a == [] {
      assert a + b == b;
    } else if b == [] {
      assert a + b == a;
    } else if cmp(a[0], b[0]) <= 0 {
      MergeStable(a[1..], b, x, cmp);
      MergeLeftStable(a, b, x, cmp);
    } else {
      MergeStable(a, b[1..], x, cmp);
      if Equiv(b[0], x, cmp) {
        LeftHasNoTies(a, b[0], x, cmp);
      }
      MergeRightStable(a, b, x, cmp);
    }
  }

  lemma {:induction false} SortBlocksStable<T(!new)>(s: seq<T>, w: nat, x: T, cmp: (T, T) -> int)
    requires TotalPreorder(cmp) && w > 0
    ensures Ties(SortBlocks(s, w, cmp), x, cmp) == Ties(s, x, cmp)
    decreases |s|
  {
    if |s| <= w {
      InsertionSortStable(s, x, cmp);
    } else {
      InsertionSortStable(s[..w], x, cmp);
      SortBlocksStable(s[w..], w, x, cmp);
      TiesAppend(InsertionSort(s[..w], cmp), SortBlocks(s[w..], w, cmp), x, cmp);
      TiesAppend(s[..w], s[w..], x, cmp);
      SplitAt(s, w);
    }
  }

  /** The first run of a pass is sorted, and the runs after the first
      pair are sorted runs again. */
  lemma RunsSplit<T>(s: seq<T>, w: nat, cmp: (T, T) -> int)
    requires w > 0 && RunsSorted(s, w, cmp) && s != []
    ensures Sorted(s[..Min(w, |s|)], cmp)
    ensures RunsSorted(s[Min(2 * w, |s|)..], w, cmp)
  {
    if |s| <= w {
      assert s[..Min(w, |s|)] == s;
      assert s[Min(2 * w, |s|)..] == [];
    } else {
      var rest := s[w..];
      if |rest| <= w {
        assert s[Min(2 * w, |s|)..] == [];
      } else {
        assert s[Min(2 * w, |s|)..] == rest[w..];
      }
    }
  }

  lemma {:induction false} MergePassStable<T(!new)>(s: seq<T>, w: nat, x: T, cmp: (T, T) -> int)
    requires TotalPreorder(cmp) && w > 0 && RunsSorted(s, w, cmp)
    ensures Ties(MergePass(s, w, cmp), x, cmp) == Ties(s, x, cmp)
    decreases |s|
  {
    if s != [] {
      var j := Min(w, |s|);
      var k := Min(2 * w, |s|);
      var p, q, rest := s[..j], s[j..k], s[k..];
      RunsSplit(s, w, cmp);
      MergePassStable(rest, w, x, cmp);
      MergeStable(p, q, x, cmp);
      assert MergePass(s, w, cmp) == Merge(p, q, cmp) + MergePass(rest, w, cmp);
      TiesAppend(Merge(p, q, cmp), MergePass(rest, w, cmp), x, cmp);
      TiesAppend(p, q, x, cmp);
      TiesAppend(p + q, rest, x, cmp);
      SplitThree(s, j, k);
    }
  }

  lemma SplitAt<T>(s: seq<T>, j: nat)
    requires j <= |s|
    ensures s[..j] + s[j..] == s
  {
  }

  lemma SplitThree<T>(s: seq<T>, j: nat, k: nat)
    requires j <= k <= |s|
    ensures s[..j] + s[j..k] + s[k..] == s
  {
    assert s[..j] + s[j..k] == s[..k];
  }

  lemma {:induction false} PassesStable<T(!new)>(s: seq<T>, w: nat, x: T, cmp: (T, T) -> int)
    requires TotalPreorder(cmp) && w > 0 && RunsSorted(s, w, cmp)
    ensures Ties(Passes(s, w, cmp), x, cmp) == Ties(s, x, cmp)
    decreases |s| - w
  {
    if w < |s| {
      var s1 := MergePass(s, w, cmp);
      MergePassStable(s, w, x, cmp);
      MergePassRuns(s, w, cmp);
      MergePassStable(s1, 2 * w, x, cmp);
      MergePassRuns(s1, 2 * w, cmp);
      PassesStable(MergePass(s1, 2 * w, cmp), 4 * w, x, cmp);
    }
  }

  /** The hybrid sort is stable: the elements that tie with any x come out
      in the order they went in. */
  lemma HybridSortStable<T(!new)>(s: seq<T>, x: T, cmp: (T, T) -> int)
    requires TotalPreorder(cmp)
    ensures Ties(HybridSort(s, cmp), x, cmp) == Ties(s, x, cmp)
  {
    SortBlocksStable(s, BlockSize, x, cmp);
    SortBlocksRuns(s, BlockSize, cmp);
    PassesStable(SortBlocks(s, BlockSize, cmp), BlockSize, x, cmp);
  }

  // ---------------------------------------------------------------------
  // The in-place algorithm
  // ---------------------------------------------------------------------

  /** Insert puts x into the gap g of t when everything right of the gap
      compares greater than x and the element left of it does not. */
  lemma {:induction false} InsertAtGap<T>(t: seq<T>, x: T, g: nat, cmp: (T, T) -> int)
    requires g <= |t| && (g == 0 || cmp(t[g - 1], x) <= 0)
    requires forall q :: g <= q < |t| ==> cmp(t[q], x) > 0
    ensures Insert(t, x, cmp) == t[..g] + [x] + t[g..]
    decreases |t|
  {
    if g < |t| {
      var init, last := t[..|t| - 1], t[|t| - 1];
      assert cmp(last, x) > 0;
      assert Insert(t, x, cmp) == Insert(init, x, cmp) + [last];
      InsertAtGap(init, x, g, cmp);
      assert init[..g] == t[..g];
      assert t[g..] == init[g..] + [last];
    } else {
      assert t[..g] == t;
    }
  }

  /** One step of the insertion loop: a[j] moves left past the elements of
      a[lo..j) that compare greater than it. */
  method InsertAt<T>(a: array<T>, lo: nat, j: nat, cmp: (T, T) -> int)
    requires lo <= j < a.Length
    modifies a
    ensures a[..] == Fill(old(a[..]), lo, Insert(old(a[..])[lo..j], old(a[j]), cmp))
  {
    ghost var a0 := a[..];
    ghost var t := a0[lo..j];
    var item := a[j];
    var k := j;
    while k > lo && cmp(a[k - 1], item) > 0
      invariant lo <= k <= j
      invariant forall p :: lo <= p < k ==> a[p] == t[p - lo]
      invariant forall p :: k < p <= j ==> a[p] == t[p - 1 - lo]
      invariant forall q :: k - lo <= q < j - lo ==> cmp(t[q], item) > 0
      invariant forall p :: 0 <= p < a.Length && !(lo <= p <= j) ==> a[p] == a0[p]
    {
      a[k] := a[k - 1];
      k := k - 1;
    }
    assert k == lo || cmp(t[k - 1 - lo], item) <= 0;
    a[k] := item;
    InsertAtEnd(a[..], a0, lo, j, k, t, item, cmp);
  }

  /** When the insertion loop stops at k, storing the item there leaves
      a0 with Insert(t, item) written at lo. */
  lemma InsertAtEnd<T>(A: seq<T>, a0: seq<T>, lo: nat, j: nat, k: nat, t: seq<T>, x: T,
                       cmp: (T, T) -> int)
    requires |A| == |a0| && lo <= k <= j < |A| && t == a0[lo..j]
    requires forall p :: lo <= p < k ==> A[p] == t[p - lo]
    requires A[k] == x
    requires forall p :: k < p <= j ==> A[p] == t[p - 1 - lo]
    requires forall q :: k - lo <= q < j - lo ==> cmp(t[q], x) > 0
    requires k == lo || cmp(t[k - 1 - lo], x) <= 0
    requires forall p :: 0 <= p < |A| && !(lo <= p <= j) ==> A[p] == a0[p]
    ensures A == Fill(a0, lo, Insert(t, x, cmp))
  {
    InsertAtGap(t, x, k - lo, cmp);
    var g := k - lo;
    var r := t[..g] + [x] + t[g..];
    forall q | 0 <= q < |r|
      ensures A[lo + q] == r[q]
    {
      if q < g {
        assert r[q] == t[..g][q];
      } else if g < q {
        assert r[q] == t[g..][q - g - 1];
      }
    }
    FillFromParts(A, a0, lo, r);
  }

  lemma InsertionSortSnoc<T>(s: seq<T>, n: nat, cmp: (T, T) -> int)
    requires n < |s|
    ensures InsertionSort(s[..n + 1], cmp) == Insert(InsertionSort(s[..n], cmp), s[n], cmp)
  {
    var u := s[..n + 1];
    assert u[..|u| - 1] == s[..n];
  }

  /** One pass of the insertion loop on the array contents A, which hold the
      first j - lo elements of a0[lo..hi) sorted: inserting A[j] into them
      sorts one more. */
  lemma InsertStep<T>(a0: seq<T>, lo: nat, hi: nat, j: nat, A: seq<T>, cmp: (T, T) -> int)
    requires lo < j < hi <= |a0|
    requires A == Fill(a0, lo, InsertionSort(a0[lo..hi][..j - lo], cmp))
    ensures lo <= j < |A|
    ensures Fill(A, lo, Insert(A[lo..j], A[j], cmp))
         == Fill(a0, lo, InsertionSort(a0[lo..hi][..j + 1 - lo], cmp))
  {
    var s := a0[lo..hi];
    var t := InsertionSort(s[..j - lo], cmp);
    var x := a0[j];
    InsertionSortSnoc(s, j - lo, cmp);
    var v := Insert(t, x, cmp);
    assert v == InsertionSort(s[..j + 1 - lo], cmp);
    assert A[lo..j] == t by { FillSlice(a0, lo, t); }
    assert A[j] == x by { FillOutside(a0, lo, t, j); }
    calc {
      Fill(A, lo, Insert(A[lo..j], A[j], cmp));
      Fill(A, lo, v);
      { FillOver(a0, lo, t, v); }
      Fill(a0, lo, v);
    }
  }

  /** Insertion sort of a[lo..hi) in place: one block of the first phase. */
  method InsertionSortRange<T>(a: array<T>, lo: nat, hi: nat, cmp: (T, T) -> int)
    requires lo <= hi <= a.Length
    modifies a
    ensures a[..] == Fill(old(a[..]), lo, InsertionSort(old(a[..])[lo..hi], cmp))
  {
    ghost var a0 := a[..];
    ghost var s := a0[lo..hi];
    if lo == hi {
      FillSame(a0, lo, 0);
      return;
    }
    var j := lo + 1;
    assert s[..1] == [s[0]];
    FillSame(a0, lo, 1);
    while j < hi
      invariant lo < j <= hi
      invariant a[..] == Fill(a0, lo, InsertionSort(s[..j - lo], cmp))
    {
      InsertStep(a0, lo, hi, j, a[..], cmp);
      InsertAt(a, lo, j, cmp);
      j := j + 1;
    }
    assert s[..j - lo] == s;
  }

  /** One step of merge(): the head that compares lower or equal goes out,
      the left one on a tie. */
  lemma MergeStep<T>(a: seq<T>, b: seq<T>, x: nat, y: nat, cmp: (T, T) -> int)
    requires x < |a| && y < |b|
    ensures cmp(a[x], b[y]) <= 0 ==>
              Merge(a[x..], b[y..], cmp) == [a[x]] + Merge(a[x + 1..], b[y..], cmp)
    ensures cmp(a[x], b[y]) > 0 ==>
              Merge(a[x..], b[y..], cmp) == [b[y]] + Merge(a[x..], b[y + 1..], cmp)
  {
    assert a[x..][1..] == a[x + 1..];
    assert b[y..][1..] == b[y + 1..];
  }

  lemma Shift<T>(out: seq<T>, v: T, rest: seq<T>)
    ensures out + ([v] + rest) == (out + [v]) + rest
  {
  }

  lemma Regroup<T>(out: seq<T>, x: seq<T>, m: seq<T>, rest: seq<T>, target: seq<T>)
    requires out + x == target && x == m + rest
    ensures (out + m) + rest == target
  {
    Assoc(out, m, rest);
  }

  lemma Assoc<T>(u: seq<T>, v: seq<T>, w: seq<T>)
    ensures u + v + w == u + (v + w)
  {
  }

  /** s with the positions d .. d+|out| overwritten by out, one store at a
      time. */
  function Fill<T>(s: seq<T>, d: nat, out: seq<T>): (r: seq<T>)
    requires d + |out| <= |s|
    ensures |r| == |s|
    decreases |out|
  {
    if out == [] then s else Fill(s[d := out[0]], d + 1, out[1..])
  }

  lemma {:induction false} FillOutside<T>(s: seq<T>, d: nat, out: seq<T>, p: nat)
    requires d + |out| <= |s| && p < |s| && !(d <= p < d + |out|)
    ensures Fill(s, d, out)[p] == s[p]
    decreases |out|
  {
    if out != [] {
      FillOutside(s[d := out[0]], d + 1, out[1..], p);
    }
  }

  lemma {:induction false} FillInside<T>(s: seq<T>, d: nat, out: seq<T>, q: nat)
    requires d + |out| <= |s| && q < |out|
    ensures Fill(s, d, out)[d + q] == out[q]
    decreases |out|
  {
    if q == 0 {
      FillOutside(s[d := out[0]], d + 1, out[1..], d);
    } else {
      FillInside(s[d := out[0]], d + 1, out[1..], q - 1);
    }
  }

  lemma FillOutsideSlice<T>(s: seq<T>, d: nat, out: seq<T>, i: nat, e: nat)
    requires d + |out| <= |s| && i <= e <= |s|
    requires e <= d || d + |out| <= i
    ensures Fill(s, d, out)[i..e] == s[i..e]
  {
    forall p | i <= p < e
      ensures Fill(s, d, out)[p] == s[p]
    {
      FillOutside(s, d, out, p);
    }
  }

  lemma FillSlice<T>(s: seq<T>, d: nat, out: seq<T>)
    requires d + |out| <= |s|
    ensures Fill(s, d, out)[d..d + |out|] == out
  {
    forall q | 0 <= q < |out|
      ensures Fill(s, d, out)[d + q] == out[q]
    {
      FillInside(s, d, out, q);
    }
  }

  lemma {:induction false} FillSnoc<T>(s: seq<T>, d: nat, out: seq<T>, v: T)
    requires d + |out| < |s|
    ensures Fill(s, d, out + [v]) == Fill(s, d, out)[d + |out| := v]
    decreases |out|
  {
    if out != [] {
      assert (out + [v])[1..] == out[1..] + [v];
      FillSnoc(s[d := out[0]], d + 1, out[1..], v);
    }
  }

  lemma {:induction false} FillFill<T>(s: seq<T>, d: nat, u: seq<T>, v: seq<T>)
    requires d + |u| + |v| <= |s|
    ensures Fill(Fill(s, d, u), d + |u|, v) == Fill(s, d, u + v)
    decreases |u|
  {
    if u == [] {
      assert u + v == v;
    } else {
      assert (u + v)[1..] == u[1..] + v;
      FillFill(s[d := u[0]], d + 1, u[1..], v);
    }
  }

  /** Every position of a filled sequence, in one statement. */
  lemma FillAt<T>(s: seq<T>, d: nat, out: seq<T>, p: nat)
    requires d + |out| <= |s| && p < |s|
    ensures Fill(s, d, out)[p] == if d <= p < d + |out| then out[p - d] else s[p]
  {
    if d <= p < d + |out| {
      FillInside(s, d, out, p - d);
    } else {
      FillOutside(s, d, out, p);
    }
  }

  /** A sequence that agrees with out on d .. d+|out| and with s elsewhere
      is s filled with out. */
  lemma FillFromParts<T>(r: seq<T>, s: seq<T>, d: nat, out: seq<T>)
    requires |r| == |s| && d + |out| <= |s|
    requires forall q :: 0 <= q < |out| ==> r[d + q] == out[q]
    requires forall p :: 0 <= p < |s| && !(d <= p < d + |out|) ==> r[p] == s[p]
    ensures r == Fill(s, d, out)
  {
    forall p | 0 <= p < |s|
      ensures r[p] == Fill(s, d, out)[p]
    {
      FillAt(s, d, out, p);
      if d <= p < d + |out| {
        assert r[d + (p - d)] == out[p - d];
      }
    }
  }

  /** Filling a place a second time, at least as far, keeps the second
      filling. */
  lemma FillOver<T>(s: seq<T>, d: nat, u: seq<T>, v: seq<T>)
    requires |u| <= |v| && d + |v| <= |s|
    ensures Fill(Fill(s, d, u), d, v) == Fill(s, d, v)
  {
    forall p | 0 <= p < |s|
      ensures Fill(Fill(s, d, u), d, v)[p] == Fill(s, d, v)[p]
    {
      FillAt(Fill(s, d, u), d, v, p);
      FillAt(s, d, v, p);
      FillAt(s, d, u, p);
    }
  }

  /** Fillings of disjoint places commute. */
  lemma FillCommute<T>(s: seq<T>, d: nat, u: seq<T>, e: nat, v: seq<T>)
    requires d + |u| <= |s| && e + |v| <= |s|
    requires d + |u| <= e || e + |v| <= d
    ensures Fill(Fill(s, d, u), e, v) == Fill(Fill(s, e, v), d, u)
  {
    forall p | 0 <= p < |s|
      ensures Fill(Fill(s, d, u), e, v)[p] == Fill(Fill(s, e, v), d, u)[p]
    {
      FillAt(Fill(s, d, u), e, v, p);
      FillAt(Fill(s, e, v), d, u, p);
      FillAt(s, d, u, p);
      FillAt(s, e, v, p);
    }
  }

  /** Filling a place with what it holds changes nothing. */
  lemma FillSame<T>(s: seq<T>, d: nat, k: nat)
    requires d + k <= |s|
    ensures Fill(s, d, s[d..d + k]) == s
  {
    FillFromParts(s, s, d, s[d..d + k]);
  }

  /** The loop invariant of merge() carried over one step, on the two
      remaining runs s[i..e1) and s[j..e2). */
  lemma MergeAdvance<T>(s: seq<T>, i: nat, e1: nat, j: nat, e2: nat, out: seq<T>, m: seq<T>,
                        cmp: (T, T) -> int)
    requires i < e1 <= |s| && j < e2 <= |s|
    requires out + Merge(s[i..e1], s[j..e2], cmp) == m
    ensures cmp(s[i], s[j]) <= 0 ==> (out + [s[i]]) + Merge(s[i + 1..e1], s[j..e2], cmp) == m
    ensures cmp(s[i], s[j]) > 0 ==> (out + [s[j]]) + Merge(s[i..e1], s[j + 1..e2], cmp) == m
  {
    var a, b := s[i..e1], s[j..e2];
    MergeStep(a, b, 0, 0, cmp);
    assert a[1..] == s[i + 1..e1] && b[1..] == s[j + 1..e2];
    if cmp(s[i], s[j]) <= 0 {
      Shift(out, s[i], Merge(s[i + 1..e1], s[j..e2], cmp));
    } else {
      Shift(out, s[j], Merge(s[i..e1], s[j + 1..e2], cmp));
    }
  }

  /** The tail loops of merge(): copy src[i..e) to dst from index o on. */
  method CopyRun<T>(src: array<T>, i: nat, e: nat, dst: array<T>, o: nat)
    requires i <= e <= src.Length && o + (e - i) <= dst.Length
    requires src == dst ==> e <= o || o + (e - i) <= i
    modifies dst
    ensures dst[..] == Fill(old(dst[..]), o, old(src[i..e]))
  {
    ghost var s0, d0 := src[..], dst[..];
    ghost var a := src[i..e];
    var k := 0;
    while k < e - i
      invariant k <= e - i
      invariant src != dst ==> src[..] == s0
      invariant dst[..] == Fill(d0, o, a[..k])
    {
      if src == dst {
        FillOutside(d0, o, a[..k], i + k);
      }
      assert src[i + k] == a[k];
      dst[o + k] := src[i + k];
      FillSnoc(d0, o, a[..k], a[k]);
      assert a[..k] + [a[k]] == a[..k + 1];
      k := k + 1;
    }
    assert a[..k] == a;
  }

  /** What the first loop of merge() maintains, stated on the contents S of
      src and D of dst: the output so far fills dst from d on, the unread
      parts of the runs are untouched, and the output so far followed by
      the merge of what is left is the merge of the whole runs. */
  ghost predicate HeadsInv<T>(S: seq<T>, D: seq<T>, alias: bool, s0: seq<T>, d0: seq<T>,
                              i0: nat, e1: nat, j0: nat, e2: nat, d: nat,
                              i: nat, j: nat, out: seq<T>, cmp: (T, T) -> int)
  {
    && i0 <= i <= e1 <= |s0| && j0 <= j <= e2 <= |s0|
    && |out| == (i - i0) + (j - j0) && d + (e1 - i0) + (e2 - j0) <= |d0|
    && (alias ==> (e1 <= d || d + (e1 - i0) + (e2 - j0) <= i0))
    && (alias ==> (e2 <= d || d + (e1 - i0) + (e2 - j0) <= j0))
    && D == Fill(d0, d, out)
    && S == (if alias then D else s0)
    && (alias ==> s0 == d0)
    && out + Merge(s0[i..e1], s0[j..e2], cmp) == Merge(s0[i0..e1], s0[j0..e2], cmp)
  }

  /** The first loop of merge(): while both runs have elements, the head
      that compares lower or equal (the left one on a tie) is copied out. */
  method MergeHeads<T>(src: array<T>, i0: nat, e1: nat, j0: nat, e2: nat,
                       dst: array<T>, d: nat, cmp: (T, T) -> int)
      returns (i: nat, j: nat, ghost out: seq<T>)
    requires i0 <= e1 <= src.Length && j0 <= e2 <= src.Length
    requires d + (e1 - i0) + (e2 - j0) <= dst.Length
    requires src == dst ==> (e1 <= d || d + (e1 - i0) + (e2 - j0) <= i0)
    requires src == dst ==> (e2 <= d || d + (e1 - i0) + (e2 - j0) <= j0)
    modifies dst
    ensures i0 <= i <= e1 && j0 <= j <= e2 && (i == e1 || j == e2)
    ensures |out| == (i - i0) + (j - j0)
    ensures dst[..] == Fill(old(dst[..]), d, out)
    ensures out + Merge(old(src[..])[i..e1], old(src[..])[j..e2], cmp) ==
            Merge(old(src[..])[i0..e1], old(src[..])[j0..e2], cmp)
  {
    ghost var s0, d0 := src[..], dst[..];
    out := [];
    i, j := i0, j0;
    var o := d;
    while i < e1 && j < e2
      invariant o == d + |out|
      invariant HeadsInv(src[..], dst[..], src == dst, s0, d0, i0, e1, j0, e2, d, i, j, out, cmp)
      decreases (e1 - i) + (e2 - j)
    {
      i, j, out := MergeOne(src, i0, e1, j0, e2, dst, d, i, j, o, s0, d0, out, cmp);
      o := o + 1;
    }
  }

  /** While both runs have unread elements, the two heads are still the
      original elements and there is room for one more output element. */
  lemma HeadsRead<T>(S: seq<T>, D: seq<T>, alias: bool, s0: seq<T>, d0: seq<T>,
                     i0: nat, e1: nat, j0: nat, e2: nat, d: nat,
                     i: nat, j: nat, out: seq<T>, cmp: (T, T) -> int)
    requires i < e1 && j < e2
    requires HeadsInv(S, D, alias, s0, d0, i0, e1, j0, e2, d, i, j, out, cmp)
    ensures S[i] == s0[i] && S[j] == s0[j] && d + |out| < |D|
  {
    if alias {
      FillOutside(d0, d, out, i);
      FillOutside(d0, d, out, j);
    }
  }

  /** Storing the head that compares lower or equal at the end of the
      output, leaving the contents S2, D2, keeps the invariant of the loop. */
  lemma HeadsStep<T>(S: seq<T>, D: seq<T>, S2: seq<T>, D2: seq<T>, alias: bool,
                     s0: seq<T>, d0: seq<T>, i0: nat, e1: nat, j0: nat, e2: nat, d: nat,
                     i: nat, j: nat, out: seq<T>, cmp: (T, T) -> int)
    requires i < e1 && j < e2
    requires HeadsInv(S, D, alias, s0, d0, i0, e1, j0, e2, d, i, j, out, cmp)
    requires d + |out| < |D|
    requires D2 == D[d + |out| := if cmp(s0[i], s0[j]) <= 0 then s0[i] else s0[j]]
    requires S2 == if alias then D2 else S
    ensures cmp(s0[i], s0[j]) <= 0 ==>
              HeadsInv(S2, D2, alias, s0, d0, i0, e1, j0, e2, d, i + 1, j, out + [s0[i]], cmp)
    ensures cmp(s0[i], s0[j]) > 0 ==>
              HeadsInv(S2, D2, alias, s0, d0, i0, e1, j0, e2, d, i, j + 1, out + [s0[j]], cmp)
  {
    MergeAdvance(s0, i, e1, j, e2, out, Merge(s0[i0..e1], s0[j0..e2], cmp), cmp);
    if cmp(s0[i], s0[j]) <= 0 {
      FillSnoc(d0, d, out, s0[i]);
    } else {
      FillSnoc(d0, d, out, s0[j]);
    }
  }

  /** The body of that loop: the head that compares lower or equal is
      copied to dst and its index advances. */
  method MergeOne<T>(src: array<T>, i0: nat, e1: nat, j0: nat, e2: nat, dst: array<T>, d: nat,
                     i: nat, j: nat, o: nat, ghost s0: seq<T>, ghost d0: seq<T>, ghost out: seq<T>,
                     cmp: (T, T) -> int)
      returns (i2: nat, j2: nat, ghost out2: seq<T>)
    requires i < e1 && j < e2 && o == d + |out|
    requires HeadsInv(src[..], dst[..], src == dst, s0, d0, i0, e1, j0, e2, d, i, j, out, cmp)
    modifies dst
    ensures HeadsInv(src[..], dst[..], src == dst, s0, d0, i0, e1, j0, e2, d, i2, j2, out2, cmp)
    ensures |out2| == |out| + 1
    ensures (i2, j2) == (i + 1, j) || (i2, j2) == (i, j + 1)
  {
    ghost var S, D := src[..], dst[..];
    HeadsRead(S, D, src == dst, s0, d0, i0, e1, j0, e2, d, i, j, out, cmp);
    if cmp(src[i], src[j]) <= 0 {
      dst[o] := src[i];
      out2 := out + [s0[i]];
      i2, j2 := i + 1, j;
    } else {
      dst[o] := src[j];
      out2 := out + [s0[j]];
      i2, j2 := i, j + 1;
    }
    HeadsStep(S, D, src[..], dst[..], src == dst, s0, d0, i0, e1, j0, e2, d, i, j, out, cmp);
  }

  /** merge(): the runs src[i0..e1) and src[j0..e2) merged into dst from
      index d on. src and dst may be the same array when the regions do not
      overlap. */
  method MergeRuns<T>(src: array<T>, i0: nat, e1: nat, j0: nat, e2: nat,
                      dst: array<T>, d: nat, ghost a: seq<T>, ghost b: seq<T>,
                      cmp: (T, T) -> int)
    requires i0 <= e1 <= src.Length && j0 <= e2 <= src.Length
    requires d + (e1 - i0) + (e2 - j0) <= dst.Length
    requires src == dst ==> (e1 <= d || d + (e1 - i0) + (e2 - j0) <= i0)
    requires src == dst ==> (e2 <= d || d + (e1 - i0) + (e2 - j0) <= j0)
    requires a == src[i0..e1] && b == src[j0..e2]
    modifies dst
    ensures dst[..] == Fill(old(dst[..]), d, Merge(a, b, cmp))
  {
    ghost var s0, d0 := src[..], dst[..];
    ghost var m := Merge(s0[i0..e1], s0[j0..e2], cmp);
    var i, j, out := MergeHeads(src, i0, e1, j0, e2, dst, d, cmp);
    ghost var ra, rb := s0[i..e1], s0[j..e2];
    assert out + (ra + rb) == m by {
      assert ra == [] || rb == [];
      assert Merge(ra, rb, cmp) == ra + rb;
    }
    assert src[i..e1] == ra by {
      if src == dst {
        FillOutsideSlice(d0, d, out, i, e1);
      }
    }
    var o := d + (i - i0) + (j - j0);
    CopyRun(src, i, e1, dst, o);
    FillFill(d0, d, out, ra);
    assert src[j..e2] == rb by {
      if src == dst {
        FillOutsideSlice(d0, d, out + ra, j, e2);
      }
    }
    CopyRun(src, j, e2, dst, o + (e1 - i));
    FillFill(d0, d, out + ra, rb);
    assert (out + ra) + rb == m by { Assoc(out, ra, rb); }
  }

  // ---------------------------------------------------------------------
  // First phase: insertion sort on each block
  // ---------------------------------------------------------------------

  /** What the block loop keeps: the blocks before position c are sorted in
      place and together hold out; nothing else has changed. */
  ghost predicate BlocksInv<T>(A: seq<T>, a0: seq<T>, size: nat, n: nat, c: nat, out: seq<T>,
                               cmp: (T, T) -> int)
  {
    && n > 0 && size <= |a0| == |A| && c <= size && |out| == c
    && A == Fill(a0, 0, out)
    && out + SortBlocks(a0[c..size], n, cmp) == SortBlocks(a0[..size], n, cmp)
  }

  /** Sorting the block [i, Min(i + n, size)) in place extends out
      by one block. */
  lemma BlocksStep<T>(A: seq<T>, a0: seq<T>, size: nat, n: nat, i: nat, out: seq<T>, cmp: (T, T) -> int)
    requires BlocksInv(A, a0, size, n, i, out, cmp) && i < size
    ensures A[i..Min(i + n, size)] == a0[i..Min(i + n, size)]
    ensures BlocksInv(Fill(A, i, InsertionSort(A[i..Min(i + n, size)], cmp)), a0, size, n,
                      Min(i + n, size),
                      out + InsertionSort(a0[i..Min(i + n, size)], cmp), cmp)
  {
    var e := Min(i + n, size);
    var v := InsertionSort(a0[i..e], cmp);
    FillOutsideSlice(a0, 0, out, i, e);
    FillFill(a0, 0, out, v);
    var r := a0[i..size];
    if |r| <= n {
      assert r == a0[i..e];
      assert SortBlocks(a0[e..size], n, cmp) == [];
    } else {
      assert r[..n] == a0[i..e];
      assert r[n..] == a0[e..size];
    }
    assert SortBlocks(r, n, cmp) == v + SortBlocks(a0[e..size], n, cmp);
    Assoc(out, v, SortBlocks(a0[e..size], n, cmp));
  }

  /** The first phase of sort(): every block of n elements of
      a[0..size) is insertion-sorted in place. */
  method SortBlocksInPlace<T>(a: array<T>, size: nat, n: nat, cmp: (T, T) -> int)
    requires size <= a.Length && n > 0
    modifies a
    ensures a[..] == Fill(old(a[..]), 0, SortBlocks(old(a[..])[..size], n, cmp))
  {
    ghost var a0 := a[..];
    ghost var out: seq<T> := [];
    assert a0[0..size] == a0[..size];
    var i: nat := 0;
    while i < size
      invariant BlocksInv(a[..], a0, size, n, Min(i, size), out, cmp)
    {
      var end := i + n;
      if end >= size {
        end := size;
      }
      BlocksStep(a[..], a0, size, n, i, out, cmp);
      InsertionSortRange(a, i, end, cmp);
      out := out + InsertionSort(a0[i..end], cmp);
      i := i + n;
    }
    assert SortBlocks(a0[size..size], n, cmp) == [];
    assert out + [] == out;
  }

  // ---------------------------------------------------------------------
  // Second phase: one merge pass
  // ---------------------------------------------------------------------

  /** The frame of the loop of a merge pass, on the contents S of the
      source array and D of the destination: r is the range being merged,
      out (the first c elements of the result) has been written at dd and
      nothing else has changed; when source and destination are the same
      array the two ranges do not overlap. */
  ghost predicate PassInv<T>(S: seq<T>, D: seq<T>, alias: bool, s0: seq<T>, d0: seq<T>,
                             so: nat, dd: nat, r: seq<T>, w: nat, c: nat, out: seq<T>)
  {
    && w > 0 && so + |r| <= |s0| == |S| && dd + |r| <= |d0| == |D|
    && r == s0[so..so + |r|]
    && c <= |r| && |out| == c
    && (alias ==> so + |r| <= dd || dd + |r| <= so)
    && D == Fill(d0, dd, out)
    && S == (if alias then D else s0)
    && (alias ==> s0 == d0)
  }

  /** A merge pass over r[a..] starts with the pair of runs at a. */
  lemma MergePassSlice<T>(r: seq<T>, a: nat, j: nat, k: nat, w: nat, cmp: (T, T) -> int)
    requires w > 0 && a < |r| && j == Min(a + w, |r|) && k == Min(a + w + w, |r|)
    ensures MergePass(r[a..], w, cmp) == Merge(r[a..j], r[j..k], cmp) + MergePass(r[k..], w, cmp)
  {
    var t := r[a..];
    var j', k' := Min(w, |t|), Min(2 * w, |t|);
    assert j' == j - a && k' == k - a;
    var x, y, z := t[..j'], t[j'..k'], t[k'..];
    assert x == r[a..j] by { SliceOfSlice(r, a, |r|, 0, j'); }
    assert y == r[j..k] by { SliceOfSlice(r, a, |r|, j', k'); }
    assert z == r[k..] by { SliceOfSlice(r, a, |r|, k', |t|); }
    calc {
      MergePass(t, w, cmp);
      Merge(x, y, cmp) + MergePass(z, w, cmp);
      Merge(r[a..j], r[j..k], cmp) + MergePass(r[k..], w, cmp);
    }
  }

  /** The merged output so far followed by the pair at i is the output up
      to k. */
  lemma PassMerged<T>(r: seq<T>, w: nat, i: nat, j: nat, k: nat, out: seq<T>, cmp: (T, T) -> int)
    requires w > 0 && i < |r| && j == Min(i + w, |r|) && k == Min(i + w + w, |r|)
    requires out + MergePass(r[i..], w, cmp) == MergePass(r, w, cmp)
    ensures (out + Merge(r[i..j], r[j..k], cmp)) + MergePass(r[k..], w, cmp) == MergePass(r, w, cmp)
  {
    MergePassSlice(r, i, j, k, w, cmp);
    Regroup(out, MergePass(r[i..], w, cmp), Merge(r[i..j], r[j..k], cmp),
            MergePass(r[k..], w, cmp), MergePass(r, w, cmp));
  }

  lemma SliceOfSlice<T>(s: seq<T>, a: nat, b: nat, i: nat, j: nat)
    requires a <= b <= |s| && i <= j <= b - a
    ensures s[a..b][i..j] == s[a + i..a + j]
  {
    forall q | 0 <= q < j - i
      ensures s[a..b][i..j][q] == s[a + i..a + j][q]
    {
    }
  }

  /** A run of r, read from the source array, is still that run of r: in
      place, the merged output so far lies elsewhere. */
  lemma PassRun<T>(S: seq<T>, D: seq<T>, alias: bool, s0: seq<T>, d0: seq<T>,
                   so: nat, dd: nat, r: seq<T>, w: nat, c: nat, out: seq<T>, a: nat, b: nat)
    requires PassInv(S, D, alias, s0, d0, so, dd, r, w, c, out)
    requires a <= b <= |r|
    ensures S[so + a..so + b] == r[a..b]
  {
    if alias {
      FillOutsideSlice(d0, dd, out, so + a, so + b);
    }
    SliceOfSlice(s0, so, so + |r|, a, b);
  }

  /** Merging the pair of runs at i (cut at the end of r) from the source
      contents S into the destination contents D gives the contents S2, D2
      that extend out by that pair. */
  lemma PassStep<T>(S: seq<T>, D: seq<T>, S2: seq<T>, D2: seq<T>, alias: bool,
                    s0: seq<T>, d0: seq<T>, so: nat, dd: nat, r: seq<T>, w: nat,
                    i: nat, j: nat, k: nat, out: seq<T>, cmp: (T, T) -> int)
    requires PassInv(S, D, alias, s0, d0, so, dd, r, w, i, out) && i < |r|
    requires j == Min(i + w, |r|) && k == Min(i + w + w, |r|)
    requires D2 == Fill(D, dd + i, Merge(S[so + i..so + j], S[so + j..so + k], cmp))
    requires S2 == if alias then D2 else S
    ensures PassInv(S2, D2, alias, s0, d0, so, dd, r, w, k, out + Merge(r[i..j], r[j..k], cmp))
  {
    PassRun(S, D, alias, s0, d0, so, dd, r, w, i, out, i, j);
    PassRun(S, D, alias, s0, d0, so, dd, r, w, i, out, j, k);
    var m := Merge(r[i..j], r[j..k], cmp);
    assert D2 == Fill(D, dd + i, m);
    FillFill(d0, dd, out, m);
    assert D2 == Fill(d0, dd, out + m);
    assert |out + m| == k;
    assert S2 == if alias then D2 else s0;
  }

  /** One iteration of the loop of a merge pass: the pair of runs at i,
      cut at the end of the range, is merged into dst at dd + i. */
  method MergePair<T>(src: array<T>, so: nat, dst: array<T>, dd: nat, size: nat, w: nat,
                      i: nat, cmp: (T, T) -> int)
      returns (j: nat, k: nat)
    requires w > 0 && i < size
    requires so + size <= src.Length && dd + size <= dst.Length
    requires src == dst ==> so + size <= dd || dd + size <= so
    modifies dst
    ensures j == Min(i + w, size) && k == Min(i + w + w, size)
    ensures dst[..] == Fill(old(dst[..]), dd + i,
                            Merge(old(src[..])[so + i..so + j], old(src[..])[so + j..so + k], cmp))
  {
    j := i + w;
    k := j + w;
    if j >= size {
      j := size;
    }
    if k >= size {
      k := size;
    }
    MergeRuns(src, so + i, so + j, so + j, so + k, dst, dd + i, src[so + i..so + j], src[so + j..so + k], cmp);
  }

  /** One merge pass of sort(): the pairs of runs of width w of
      src[so..so+size) are merged into dst[dd..dd+size). */
  method MergePassRange<T>(src: array<T>, so: nat, dst: array<T>, dd: nat, size: nat, w: nat,
                           cmp: (T, T) -> int)
    requires w > 0
    requires so + size <= src.Length && dd + size <= dst.Length
    requires src == dst ==> so + size <= dd || dd + size <= so
    modifies dst
    ensures dst[..] == Fill(old(dst[..]), dd, MergePass(old(src[..])[so..so + size], w, cmp))
  {
    ghost var s0, d0 := src[..], dst[..];
    ghost var r := src[so..so + size];
    ghost var out: seq<T> := [];
    assert r[0..] == r;
    var i: nat := 0;
    while i < size
      invariant PassInv(src[..], dst[..], src == dst, s0, d0, so, dd, r, w, Min(i, size), out)
      invariant out + MergePass(r[Min(i, size)..], w, cmp) == MergePass(r, w, cmp)
    {
      i, out := MergePassStep(src, so, dst, dd, size, w, i, cmp, s0, d0, r, out);
    }
    assert MergePass(r[size..], w, cmp) == [];
    assert out + [] == out;
  }

  /** One turn of the pass loop: the pair of runs at i merged into place. */
  method MergePassStep<T>(src: array<T>, so: nat, dst: array<T>, dd: nat, size: nat, w: nat, i: nat,
                          cmp: (T, T) -> int, ghost s0: seq<T>, ghost d0: seq<T>, ghost r: seq<T>,
                          ghost out: seq<T>)
      returns (i2: nat, ghost out2: seq<T>)
    requires w > 0 && i < size == |r|
    requires so + size <= src.Length && dd + size <= dst.Length
    requires src == dst ==> so + size <= dd || dd + size <= so
    requires PassInv(src[..], dst[..], src == dst, s0, d0, so, dd, r, w, Min(i, size), out)
    requires out + MergePass(r[Min(i, size)..], w, cmp) == MergePass(r, w, cmp)
    modifies dst
    ensures i2 == i + w + w
    ensures PassInv(src[..], dst[..], src == dst, s0, d0, so, dd, r, w, Min(i2, size), out2)
    ensures out2 + MergePass(r[Min(i2, size)..], w, cmp) == MergePass(r, w, cmp)
  {
    ghost var S, D := src[..], dst[..];
    var j, k := MergePair(src, so, dst, dd, size, w, i, cmp);
    PassStep(S, D, src[..], dst[..], src == dst, s0, d0, so, dd, r, w, i, j, k, out, cmp);
    PassMerged(r, w, i, j, k, out, cmp);
    out2 := out + Merge(r[i..j], r[j..k], cmp);
    i2 := i + w + w;
  }

  // ---------------------------------------------------------------------
  // The whole sort
  // ---------------------------------------------------------------------

  /** What sort() leaves alone: outside [0, size) of the list and
      [off, off+size) of the scratch area nothing changes. When the scratch
      area lies in the list itself (alias), it starts at or after size. */
  ghost predicate Framed<T>(L: seq<T>, B: seq<T>, alias: bool, l0: seq<T>, b0: seq<T>,
                            size: nat, off: nat)
  {
    && size <= |l0| == |L| && off + size <= |b0| == |B|
    && if alias then
         && L == B && l0 == b0 && size <= off
         && L == Fill(Fill(l0, off, L[off..off + size]), 0, L[..size])
       else
         && L == Fill(l0, 0, L[..size])
         && B == Fill(b0, off, B[off..off + size])
  }

  /** A write of P to the scratch area keeps the frame. */
  lemma FramedWriteBuf<T>(L: seq<T>, B: seq<T>, alias: bool, l0: seq<T>, b0: seq<T>,
                          size: nat, off: nat, P: seq<T>)
    requires Framed(L, B, alias, l0, b0, size, off) && |P| == size
    ensures var B' := Fill(B, off, P);
            && Framed(if alias then B' else L, B', alias, l0, b0, size, off)
            && B'[off..off + size] == P
  {
    var B' := Fill(B, off, P);
    FillSlice(B, off, P);
    if alias {
      var X, Y := L[off..off + size], L[..size];
      FillCommute(l0, off, X, 0, Y);
      FillOver(Fill(l0, 0, Y), off, X, P);
      FillCommute(l0, 0, Y, off, P);
      FillOutsideSlice(B, off, P, 0, size);
      assert B'[..size] == Y;
    } else {
      FillOver(b0, off, B[off..off + size], P);
    }
  }

  /** A write of Q to the list keeps the frame. */
  lemma FramedWriteList<T>(L: seq<T>, B: seq<T>, alias: bool, l0: seq<T>, b0: seq<T>,
                           size: nat, off: nat, Q: seq<T>)
    requires Framed(L, B, alias, l0, b0, size, off) && |Q| == size
    ensures var L' := Fill(L, 0, Q);
            && Framed(L', if alias then L' else B, alias, l0, b0, size, off)
            && L'[..size] == Q
  {
    var L' := Fill(L, 0, Q);
    FillSlice(L, 0, Q);
    assert L'[0..size] == L'[..size];
    if alias {
      var X, Y := L[off..off + size], L[..size];
      FillOver(Fill(l0, off, X), 0, Y, Q);
      FillOutsideSlice(L, 0, Q, off, off + size);
    } else {
      FillOver(l0, 0, L[..size], Q);
    }
  }

  /** Between rounds: the list, merged in passes from width n on, gives the
      result. */
  ghost predicate SortInv<T>(L: seq<T>, B: seq<T>, alias: bool, l0: seq<T>, b0: seq<T>,
                             size: nat, off: nat, n: nat, H: seq<T>, cmp: (T, T) -> int)
  {
    && Framed(L, B, alias, l0, b0, size, off) && n > 0
    && Passes(L[..size], n, cmp) == H
  }

  /** Halfway through a round: the scratch area, merged once at width n and
      then in passes from 2n on, gives the result. */
  ghost predicate MidInv<T>(L: seq<T>, B: seq<T>, alias: bool, l0: seq<T>, b0: seq<T>,
                            size: nat, off: nat, n: nat, H: seq<T>, cmp: (T, T) -> int)
  {
    && Framed(L, B, alias, l0, b0, size, off) && n > 0
    && Passes(MergePass(B[off..off + size], n, cmp), n * 2, cmp) == H
  }

  /** The first pass of a round, list L to scratch area B at width n,
      leaves the contents L2, B2. */
  lemma ToMid<T>(L: seq<T>, B: seq<T>, L2: seq<T>, B2: seq<T>, alias: bool,
                 l0: seq<T>, b0: seq<T>, size: nat, off: nat, n: nat, H: seq<T>,
                 cmp: (T, T) -> int)
    requires SortInv(L, B, alias, l0, b0, size, off, n, H, cmp) && n < size
    requires B2 == Fill(B, off, MergePass(L[0..size], n, cmp))
    requires L2 == if alias then B2 else L
    ensures MidInv(L2, B2, alias, l0, b0, size, off, n * 2, H, cmp)
  {
    assert L[0..size] == L[..size];
    var P := MergePass(L[..size], n, cmp);
    assert Passes(L[..size], n, cmp) == Passes(MergePass(P, n * 2, cmp), n * 2 * 2, cmp);
    FramedWriteBuf(L, B, alias, l0, b0, size, off, P);
  }

  /** The second pass of a round, scratch area B back to the list L at
      width n, leaves the contents L2, B2. */
  lemma FromMid<T>(L: seq<T>, B: seq<T>, L2: seq<T>, B2: seq<T>, alias: bool,
                   l0: seq<T>, b0: seq<T>, size: nat, off: nat, n: nat, H: seq<T>,
                   cmp: (T, T) -> int)
    requires MidInv(L, B, alias, l0, b0, size, off, n, H, cmp)
    requires L2 == Fill(L, 0, MergePass(B[off..off + size], n, cmp))
    requires B2 == if alias then L2 else B
    ensures SortInv(L2, B2, alias, l0, b0, size, off, n * 2, H, cmp)
  {
    FramedWriteList(L, B, alias, l0, b0, size, off, MergePass(B[off..off + size], n, cmp));
  }

  /** The whole sort is the two phases at the width the first one uses. */
  lemma HybridSortAt<T>(s: seq<T>, n: nat, cmp: (T, T) -> int)
    requires n == BlockSize
    ensures HybridSort(s, cmp) == Passes(SortBlocks(s, n, cmp), n, cmp)
  {
  }

  /** After the first phase with blocks of width n, the rounds start at
      width n. */
  lemma SortStart<T>(L: seq<T>, alias: bool, l0: seq<T>, b0: seq<T>, size: nat, off: nat,
                     n: nat, H: seq<T>, cmp: (T, T) -> int)
    requires size <= |l0| && off + size <= |b0| && n > 0
    requires alias ==> l0 == b0 && size <= off
    requires L == Fill(l0, 0, SortBlocks(l0[..size], n, cmp))
    requires H == Passes(SortBlocks(l0[..size], n, cmp), n, cmp)
    ensures SortInv(L, if alias then L else b0, alias, l0, b0, size, off, n, H, cmp)
  {
    var Y := SortBlocks(l0[..size], n, cmp);
    FillSlice(l0, 0, Y);
    assert L[..size] == Y by {
      assert L[..size] == L[0..size];
    }
    if alias {
      FillOutsideSlice(l0, 0, Y, off, off + size);
      FillSame(l0, off, size);
    } else {
      FillSame(b0, off, size);
    }
  }

  /** Once the width reaches size the list holds the result, and outside the
      sorted ranges nothing has changed. */
  lemma SortEnd<T>(L: seq<T>, B: seq<T>, alias: bool, l0: seq<T>, b0: seq<T>,
                   size: nat, off: nat, n: nat, H: seq<T>, cmp: (T, T) -> int)
    requires SortInv(L, B, alias, l0, b0, size, off, n, H, cmp) && size <= n
    ensures L[..size] == H
  {
    assert Passes(L[..size], n, cmp) == L[..size];
  }

  /** Outside list[0..size) and buf[off..off+size) nothing has changed. */
  lemma FramedEnd<T>(L: seq<T>, B: seq<T>, alias: bool, l0: seq<T>, b0: seq<T>,
                     size: nat, off: nat)
    requires Framed(L, B, alias, l0, b0, size, off)
    ensures !alias ==> L[size..] == l0[size..] && B[..off] == b0[..off]
                       && B[off + size..] == b0[off + size..]
    ensures alias ==> L[size..off] == l0[size..off] && L[off + size..] == l0[off + size..]
  {
    if alias {
      var X, Y := L[off..off + size], L[..size];
      var M := Fill(l0, off, X);
      assert L == Fill(M, 0, Y);
      FillOutsideSlice(M, 0, Y, size, off);
      FillOutsideSlice(M, 0, Y, off + size, |L|);
      FillOutsideSlice(l0, off, X, size, off);
      FillOutsideSlice(l0, off, X, off + size, |L|);
      assert L[off + size..] == L[off + size..|L|];
      assert l0[off + size..] == l0[off + size..|l0|];
    } else {
      var Y, X := L[..size], B[off..off + size];
      assert L == Fill(l0, 0, Y);
      assert B == Fill(b0, off, X);
      FillOutsideSlice(l0, 0, Y, size, |L|);
      FillOutsideSlice(b0, off, X, 0, off);
      FillOutsideSlice(b0, off, X, off + size, |B|);
      assert L[size..] == L[size..|L|] && l0[size..] == l0[size..|l0|];
      assert B[..off] == B[0..off] && b0[..off] == b0[0..off];
      assert B[off + size..] == B[off + size..|B|] && b0[off + size..] == b0[off + size..|b0|];
    }
  }

  /**
   * sort(): the first phase on list[0..size), then rounds of two merge
   * passes, list to buf[off..off+size) at width n and back at width 2n,
   * while n < size. The scratch area may be part of the list itself, after
   * its first size elements, as in the configuration reader.
   */
  method Sort<T>(list: array<T>, size: nat, buf: array<T>, off: nat, cmp: (T, T) -> int)
    requires size <= list.Length && off + size <= buf.Length
    requires list == buf ==> size <= off
    modifies list, buf
    ensures list[..size] == HybridSort(old(list[..size]), cmp)
    ensures list != buf ==> list[size..] == old(list[size..])
    ensures list == buf ==> list[size..off] == old(list[size..off])
    ensures list == buf ==> list[off + size..] == old(list[off + size..])
  {
    ghost var l0, b0 := list[..], buf[..];
    ghost var H := HybridSort(l0[..size], cmp);
    var n: nat := BlockSize;
    HybridSortAt(l0[..size], n, cmp);
    SortBlocksInPlace(list, size, n, cmp);
    SortStart(list[..], list == buf, l0, b0, size, off, n, H, cmp);
    while n < size
      invariant SortInv(list[..], buf[..], list == buf, l0, b0, size, off, n, H, cmp)
    {
      ToScratch(list, size, buf, off, n, cmp, l0, b0, H);
      n := n * 2;
      FromScratch(list, size, buf, off, n, cmp, l0, b0, H);
      n := n * 2;
    }
    SortEnd(list[..], buf[..], list == buf, l0, b0, size, off, n, H, cmp);
    FramedEnd(list[..], buf[..], list == buf, l0, b0, size, off);
  }

  /** The first half of a round: a pass of width n from the list into the
      scratch area. */
  method ToScratch<T>(list: array<T>, size: nat, buf: array<T>, off: nat, n: nat, cmp: (T, T) -> int,
                      ghost l0: seq<T>, ghost b0: seq<T>, ghost H: seq<T>)
    requires size <= list.Length && off + size <= buf.Length
    requires list == buf ==> size <= off
    requires SortInv(list[..], buf[..], list == buf, l0, b0, size, off, n, H, cmp) && n < size
    modifies buf
    ensures MidInv(list[..], buf[..], list == buf, l0, b0, size, off, n * 2, H, cmp)
  {
    ghost var L, B := list[..], buf[..];
    MergePassRange(list, 0, buf, off, size, n, cmp);
    ToMid(L, B, list[..], buf[..], list == buf, l0, b0, size, off, n, H, cmp);
  }

  /** The second half of a round: a pass of width n from the scratch area
      back into the list. */
  method FromScratch<T>(list: array<T>, size: nat, buf: array<T>, off: nat, n: nat, cmp: (T, T) -> int,
                        ghost l0: seq<T>, ghost b0: seq<T>, ghost H: seq<T>)
    requires size <= list.Length && off + size <= buf.Length
    requires list == buf ==> size <= off
    requires MidInv(list[..], buf[..], list == buf, l0, b0, size, off, n, H, cmp)
    modifies list
    ensures SortInv(list[..], buf[..], list == buf, l0, b0, size, off, n * 2, H, cmp)
  {
    ghost var L, B := list[..], buf[..];
    MergePassRange(buf, off, list, 0, size, n, cmp);
    FromMid(L, B, list[..], buf[..], list == buf, l0, b0, size, off, n, H, cmp);
  }
}
