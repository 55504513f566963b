/** What `list_sort` computes, as functions on the sequence of a list's elements. */
module NaturalMergeSort {
  import opened Elements
  import opened Order
  import opened OrderFacts
  import opened Bits

  /** The length of the first maximal nondecreasing run. */
  ghost function RunLen(less: Less, s: seq<Elem>): nat
    ensures s != [] ==> 1 <= RunLen(less, s) <= |s|
    ensures s == [] ==> RunLen(less, s) == 0
  {
    if |s| <= 1 then |s|
    else if less(s[1].item, s[0].item) then 1
    else 1 + RunLen(less, s[1..])
  }

  /** The number of maximal nondecreasing runs. */
  ghost function Runs(less: Less, s: seq<Elem>): nat
    decreases |s|
  {
    if s == [] then 0 else 1 + Runs(less, s[RunLen(less, s)..])
  }

  /** Two sorted runs merged: on equal elements the one from the first run goes first. */
  ghost function Merge(less: Less, a: seq<Elem>, b: seq<Elem>): (m: seq<Elem>)
    ensures |m| == |a| + |b|
    decreases |a| + |b|
  {
    if a == [] then b
    else if b == [] then a
    else if !less(b[0].item, a[0].item) then [a[0]] + Merge(less, a[1..], b)
    else [b[0]] + Merge(less, a, b[1..])
  }

  /** The first two runs of a list, as one pass finds them, and what comes after. */
  ghost function FirstRun(less: Less, s: seq<Elem>): seq<Elem> { s[..RunLen(less, s)] }
  ghost function AfterFirst(less: Less, s: seq<Elem>): seq<Elem> { s[RunLen(less, s)..] }
  ghost function SecondRun(less: Less, s: seq<Elem>): seq<Elem> { FirstRun(less, AfterFirst(less, s)) }
  ghost function AfterSecond(less: Less, s: seq<Elem>): seq<Elem> { AfterFirst(less, AfterFirst(less, s)) }

  /** One pass over the list, which merges each odd-numbered run with the next one. */
  ghost function Pass(less: Less, s: seq<Elem>): seq<Elem>
    decreases |s|
  {
    if s == [] then []
    else if AfterFirst(less, s) == [] then s
    else Merge(less, FirstRun(less, s), SecondRun(less, s)) + Pass(less, AfterSecond(less, s))
  }

  /** The number of runs that one pass puts out. */
  ghost function PassRuns(less: Less, s: seq<Elem>): nat
    decreases |s|
  {
    if s == [] then 0
    else if AfterFirst(less, s) == [] then 1
    else 1 + PassRuns(less, AfterSecond(less, s))
  }

  // ---------- Runs ----------

  lemma {:induction false} RunIsSorted(less: Less, s: seq<Elem>)
    requires StrictWeakOrder(less)
    ensures Sorted(less, FirstRun(less, s))
  {
    if |s| > 1 && !less(s[1].item, s[0].item) {
      RunIsSorted(less, s[1..]);
      var r, r' := FirstRun(less, s), FirstRun(less, s[1..]);
      assert r == [s[0]] + r';
      forall i, j | 0 <= i < j < |r|
        ensures !less(r[j].item, r[i].item)
      {
        if i == 0 {
          assert r[j] == r'[j - 1] && r'[0] == s[1];
        } else {
          assert r[i] == r'[i - 1] && r[j] == r'[j - 1];
        }
      }
    }
  }

  lemma {:induction false} SortedPrefixIsInRun(less: Less, a: seq<Elem>, b: seq<Elem>)
    requires Sorted(less, a)
    ensures |a| <= RunLen(less, a + b)
  {
    if |a| > 1 {
      assert (a + b)[1..] == a[1..] + b;
      SortedPrefixIsInRun(less, a[1..], b);
      assert !less(a[1].item, a[0].item);
    }
  }

  lemma {:induction false} RunsOfTail(less: Less, s: seq<Elem>, k: nat)
    requires k <= |s|
    ensures Runs(less, s[k..]) <= Runs(less, s)
    decreases |s|
  {
    var n := RunLen(less, s);
    if k == 0 {
      assert s[k..] == s;
    } else if k >= n {
      assert s[k..] == s[n..][k - n..];
      RunsOfTail(less, s[n..], k - n);
    } else {
      RunsInsideRun(less, s, k);
    }
  }

  /** Cutting a list inside its first run leaves the rest of that run and the later runs. */
  lemma {:induction false} RunsInsideRun(less: Less, s: seq<Elem>, k: nat)
    requires k < RunLen(less, s)
    ensures Runs(less, s[k..]) == Runs(less, s)
  {
    if k > 0 {
      assert RunLen(less, s) == 1 + RunLen(less, s[1..]);
      assert s[1..][RunLen(less, s) - 1..] == s[RunLen(less, s)..];
      assert s[k..] == s[1..][k - 1..];
      RunsInsideRun(less, s[1..], k - 1);
    } else {
      assert s[k..] == s;
    }
  }

  lemma RunsOfSortedThenRest(less: Less, a: seq<Elem>, b: seq<Elem>)
    requires Sorted(less, a)
    ensures Runs(less, a + b) <= 1 + Runs(less, b)
  {
    if a == [] {
      assert a + b == b;
    } else {
      SortedPrefixIsInRun(less, a, b);
      hide Sorted, RunLen;
      var n := RunLen(less, a + b);
      assert (a + b)[n..] == b[n - |a|..];
      RunsOfTail(less, b, n - |a|);
    }
  }

  // ---------- Merging ----------

  lemma MergeNothing(less: Less, s: seq<Elem>)
    ensures Merge(less, [], s) == s && Merge(less, s, []) == s
  {
  }

  lemma MergeStep(less: Less, a: seq<Elem>, b: seq<Elem>)
    requires a != [] && b != []
    ensures Merge(less, a, b)
         == if !less(b[0].item, a[0].item) then [a[0]] + Merge(less, a[1..], b) else [b[0]] + Merge(less, a, b[1..])
  {
  }

  lemma ConsMembers(e: Elem, s: seq<Elem>)
    ensures multiset([e] + s) == multiset{e} + multiset(s)
  {
  }

  lemma {:induction false} MergeMembers(less: Less, a: seq<Elem>, b: seq<Elem>)
    ensures multiset(Merge(less, a, b)) == multiset(a) + multiset(b)
    decreases |a| + |b|
  {
    hide Merge;
    if a == [] || b == [] {
      MergeNothing(less, a + b);
      assert a + b == if a == [] then b else a;
    } else {
      MergeStep(less, a, b);
      if !less(b[0].item, a[0].item) {
        MergeMembers(less, a[1..], b);
        HeadAndRest(a);
        ConsMembers(a[0], Merge(less, a[1..], b));
      } else {
        MergeMembers(less, a, b[1..]);
        HeadAndRest(b);
        ConsMembers(b[0], Merge(less, a, b[1..]));
      }
    }
  }

  /** A head below every element of a sorted list extends it. */
  lemma SortedCons(less: Less, e: Elem, s: seq<Elem>)
    requires Sorted(less, s)
    requires forall x :: x in s ==> !less(x.item, e.item)
    ensures Sorted(less, [e] + s)
  {
    var r := [e] + s;
    forall i, j | 0 <= i < j < |r|
      ensures !less(r[j].item, r[i].item)
    {
      assert r[j] == s[j - 1];
      if i > 0 {
        assert r[i] == s[i - 1];
      }
    }
  }

  lemma {:induction false} MergeIsSorted(less: Less, a: seq<Elem>, b: seq<Elem>)
    requires StrictWeakOrder(less) && Sorted(less, a) && Sorted(less, b)
    ensures Sorted(less, Merge(less, a, b))
    decreases |a| + |b|
  {
    if a != [] && b != [] {
      var (a', b', e) := if !less(b[0].item, a[0].item) then (a[1..], b, a[0]) else (a, b[1..], b[0]);
      var m := Merge(less, a', b');
      MergeIsSorted(less, a', b');
      MergeMembers(less, a', b');
      forall x | x in m
        ensures !less(x.item, e.item)
      {
        assert x in multiset(m);
        assert x in a' || x in b';
        assert x in a || x in b;
        assert x in a ==> !less(x.item, a[0].item);
        assert x in b ==> !less(x.item, b[0].item);
        if !less(b[0].item, a[0].item) {
          assert x in b ==> !less(x.item, b[0].item) && !less(b[0].item, a[0].item);
        } else {
          assert !less(a[0].item, b[0].item);
        }
      }
      SortedCons(less, e, m);
    }
  }

  /** Elements of a sorted list that follow one that is greater than `c` are not equal to `c`. */
  lemma {:induction false} NoneEqualAbove(less: Less, c: Item, s: seq<Elem>)
    requires StrictWeakOrder(less) && Sorted(less, s)
    requires s != [] ==> less(c, s[0].item)
    ensures Class(less, c, s) == []
  {
    if s != [] {
      if |s| > 1 {
        assert !less(s[1].item, s[0].item);
        assert less(c, s[1].item);
      }
      NoneEqualAbove(less, c, s[1..]);
    }
  }

  /** Merging is stable. */
  lemma {:induction false} MergeIsStable(less: Less, a: seq<Elem>, b: seq<Elem>)
    requires StrictWeakOrder(less) && Sorted(less, a)
    ensures SameClasses(less, a + b, Merge(less, a, b))
  {
    forall c
      ensures Class(less, c, a + b) == Class(less, c, Merge(less, a, b))
    {
      MergeClass(less, c, a, b);
      ClassOfConcat(less, c, a, b);
    }
  }

  lemma BelowFirst(less: Less, c: Item, e: Elem, f: Elem)
    requires StrictWeakOrder(less) && less(e.item, f.item) && Equal(less, c, e.item)
    ensures less(c, f.item)
  {
  }

  lemma {:induction false} MergeClass(less: Less, c: Item, a: seq<Elem>, b: seq<Elem>)
    requires StrictWeakOrder(less) && Sorted(less, a)
    ensures Class(less, c, Merge(less, a, b)) == Class(less, c, a) + Class(less, c, b)
    decreases |a| + |b|
  {
    hide StrictWeakOrder, Sorted, Class, Merge, Equal;
    ClassOfConcat(less, c, a, b);
    if a == [] || b == [] {
      MergeNothing(less, a + b);
      assert a + b == if a == [] then b else a;
    } else {
      MergeStep(less, a, b);
      if !less(b[0].item, a[0].item) {
        SortedRest(less, a);
        MergeClass(less, c, a[1..], b);
        ClassOfCons(less, c, a[0], Merge(less, a[1..], b));
        ClassOfConcat(less, c, a[1..], b);
        ClassOfCons(less, c, a[0], a[1..] + b);
        HeadAndRest(a);
        Concat3([a[0]], a[1..], b);
      } else {
        MergeClass(less, c, a, b[1..]);
        ClassOfCons(less, c, b[0], Merge(less, a, b[1..]));
        ClassOfCons(less, c, b[0], b[1..]);
        HeadAndRest(b);
        if Equal(less, c, b[0].item) {
          BelowFirst(less, c, b[0], a[0]);
          NoneEqualAbove(less, c, a);
        }
        NoneBetween(Class(less, c, a), if Equal(less, c, b[0].item) then [b[0]] else [], Class(less, c, b[1..]));
      }
    }
  }

  lemma NoneBetween(a: seq<Elem>, b: seq<Elem>, c: seq<Elem>)
    requires a == [] || b == []
    ensures a + (b + c) == b + (a + c)
  {
  }

  // ---------- Passes ----------

  lemma SplitInTwo(less: Less, s: seq<Elem>)
    ensures s == FirstRun(less, s) + AfterFirst(less, s) && |FirstRun(less, s)| == RunLen(less, s)
  {
    hide RunLen;
  }

  lemma SplitInRuns(less: Less, s: seq<Elem>)
    ensures s == FirstRun(less, s) + AfterFirst(less, s)
    ensures AfterFirst(less, s) == SecondRun(less, s) + AfterSecond(less, s)
    ensures s == FirstRun(less, s) + SecondRun(less, s) + AfterSecond(less, s)
    ensures |FirstRun(less, s)| == RunLen(less, s)
    ensures |SecondRun(less, s)| == RunLen(less, AfterFirst(less, s))
  {
    hide RunLen, FirstRun, AfterFirst;
    SplitInTwo(less, s);
    SplitInTwo(less, AfterFirst(less, s));
    Concat3(FirstRun(less, s), SecondRun(less, s), AfterSecond(less, s));
  }

  /** A pass only moves elements past elements that they are not equal to. */
  lemma {:induction false} PassIsStable(less: Less, s: seq<Elem>)
    requires StrictWeakOrder(less)
    ensures SameClasses(less, s, Pass(less, s))
    decreases |s|
  {
    if s != [] && AfterFirst(less, s) != [] {
      var a, b, r := FirstRun(less, s), SecondRun(less, s), AfterSecond(less, s);
      SplitInRuns(less, s);
      RunIsSorted(less, s);
      MergeIsStable(less, a, b);
      PassIsStable(less, r);
      SameClassesConcat(less, a + b, Merge(less, a, b), r, Pass(less, r));
    }
  }

  /** A pass puts out half as many runs as it reads, rounded up. */
  lemma {:induction false} PassHalvesRuns(less: Less, s: seq<Elem>)
    ensures PassRuns(less, s) == (Runs(less, s) + 1) / 2
    decreases |s|
  {
    if s != [] && AfterFirst(less, s) != [] {
      PassHalvesRuns(less, AfterSecond(less, s));
    }
  }

  /** The list has at most as many runs after a pass as the pass counted. */
  lemma {:induction false} PassLeavesRuns(less: Less, s: seq<Elem>)
    requires StrictWeakOrder(less)
    ensures Runs(less, Pass(less, s)) <= PassRuns(less, s)
    decreases |s|
  {
    if s == [] {
    } else if AfterFirst(less, s) == [] {
      assert Runs(less, s) == 1;
    } else {
      var a, b, r := FirstRun(less, s), SecondRun(less, s), AfterSecond(less, s);
      RunIsSorted(less, s);
      RunIsSorted(less, AfterFirst(less, s));
      MergeIsSorted(less, a, b);
      RunsOfSortedThenRest(less, Merge(less, a, b), Pass(less, r));
      PassLeavesRuns(less, r);
    }
  }

  lemma OneRunIsSorted(less: Less, s: seq<Elem>)
    requires StrictWeakOrder(less) && Runs(less, s) <= 1
    ensures Sorted(less, s)
  {
    RunIsSorted(less, s);
    if s != [] {
      assert Runs(less, AfterFirst(less, s)) == 0;
      assert FirstRun(less, s) == s;
    }
  }

  // ---------- The sort ----------

  lemma MoreToSort(less: Less, s: seq<Elem>)
    requires StrictWeakOrder(less)
    ensures PassRuns(less, s) > 1 ==> Runs(less, Pass(less, s)) < Runs(less, s)
  {
    PassHalvesRuns(less, s);
    PassLeavesRuns(less, s);
  }

  /** Passes until one of them puts out at most one run. */
  ghost function SortBy(less: Less, s: seq<Elem>): seq<Elem>
    requires StrictWeakOrder(less)
    decreases Runs(less, s)
  {
    MoreToSort(less, s);
    if PassRuns(less, s) > 1 then SortBy(less, Pass(less, s)) else Pass(less, s)
  }

  /** The number of passes that takes. */
  ghost function Passes(less: Less, s: seq<Elem>): nat
    requires StrictWeakOrder(less)
    decreases Runs(less, s)
  {
    MoreToSort(less, s);
    if PassRuns(less, s) > 1 then 1 + Passes(less, Pass(less, s)) else 1
  }

  lemma SortByOnePass(less: Less, s: seq<Elem>)
    requires StrictWeakOrder(less)
    ensures if PassRuns(less, s) > 1 then
              && Runs(less, Pass(less, s)) < Runs(less, s)
              && SortBy(less, s) == SortBy(less, Pass(less, s)) && Passes(less, s) == 1 + Passes(less, Pass(less, s))
            else SortBy(less, s) == Pass(less, s) && Passes(less, s) == 1
  {
    MoreToSort(less, s);
  }

  /** The sort is a stable sort, for every strict weak order. */
  lemma {:induction false} SortByIsStableSort(less: Less, s: seq<Elem>)
    requires StrictWeakOrder(less)
    ensures Sorted(less, SortBy(less, s))
    ensures SameClasses(less, s, SortBy(less, s))
    ensures multiset(SortBy(less, s)) == multiset(s)
    decreases Runs(less, s)
  {
    PassIsStable(less, s);
    if PassRuns(less, s) > 1 {
      MoreToSort(less, s);
      SortByIsStableSort(less, Pass(less, s));
    } else {
      PassLeavesRuns(less, s);
      OneRunIsSorted(less, Pass(less, s));
    }
    SameClassesIsPermutation(less, s, SortBy(less, s));
  }


  /** At most max(1, k) passes for at most 2^k runs: the passes are at most the
      rounded-up binary logarithm of the number of runs. */
  lemma {:induction false} PassesAreLogarithmic(less: Less, s: seq<Elem>, k: nat)
    requires StrictWeakOrder(less) && Runs(less, s) <= Pow2(k)
    ensures 1 <= Passes(less, s) <= if k == 0 then 1 else k
    decreases k
  {
    hide StrictWeakOrder, Runs, Pass, PassRuns, Passes, SortBy;
    PassHalvesRuns(less, s);
    PassLeavesRuns(less, s);
    SortByOnePass(less, s);
    if PassRuns(less, s) > 1 {
      assert k > 1;
      PassesAreLogarithmic(less, Pass(less, s), k - 1);
    }
  }

  lemma {:induction false} RunsAtMostLength(less: Less, s: seq<Elem>)
    ensures Runs(less, s) <= |s|
    decreases |s|
  {
    if s != [] {
      RunsAtMostLength(less, s[RunLen(less, s)..]);
    }
  }
}
