/** `list_sort` and the loops it is made of, on the links of one list. */
module ListSort {
  import opened Bits
  import opened Elements
  import opened Order
  import opened NaturalMergeSort
  import opened Lists

  /** An element that is not less than the last one of a sorted range extends it. */
  lemma SortedSnoc(less: Less, s: seq<Elem>, i: nat, m: nat)
    requires StrictWeakOrder(less) && i < m < |s|
    requires Sorted(less, s[i..m]) && !less(s[m].item, s[m - 1].item)
    ensures Sorted(less, s[i..m + 1])
  {
    var u := s[i..m];
    forall n | 0 <= n < |u|
      ensures !less(s[m].item, u[n].item)
    {
      assert n < |u| - 1 ==> !less(u[|u| - 1].item, u[n].item);
    }
    assert s[i..m + 1] == u + [s[m]];
  }

  lemma NotSortedAt(less: Less, s: seq<Elem>, i: nat, j: nat, m: nat)
    requires i < m < j <= |s| && less(s[m].item, s[m - 1].item)
    ensures !Sorted(less, s[i..j])
  {
    assert s[i..j][m - i] == s[m] && s[i..j][m - 1 - i] == s[m - 1];
  }

  /** `is_sorted`. */
  method IsSorted(a: Elem, b: Elem, less: Less, ghost s: seq<Elem>, ghost i: nat, ghost j: nat) returns (r: bool)
    requires StrictWeakOrder(less) && Listed(s) && 0 < i <= j < |s| && s[i] == a && s[j] == b
    ensures r <==> Sorted(less, s[i..j])
  {
    if a != b {
      var e := Next(a, s, i);
      ghost var m := i + 1;
      while e != b
        invariant i < m <= j && e == s[m]
        invariant Sorted(less, s[i..m])
        decreases j - m
      {
        var p := Prev(e, s, m);
        if less(e.item, p.item) {
          NotSortedAt(less, s, i, j, m);
          return false;
        }
        SortedSnoc(less, s, i, m);
        e := Next(e, s, m);
        m := m + 1;
      }
    }
    return true;
  }

  /** `find_end_of_run`. The ghost result counts the calls of `less`. */
  method FindEndOfRun(a: Elem, b: Elem, less: Less, ghost s: seq<Elem>, ghost i: nat, ghost j: nat)
    returns (e: Elem, ghost calls: nat)
    requires Listed(s) && 0 < i < j < |s| && s[i] == a && s[j] == b
    ensures e == s[i + RunLen(less, s[i..j])]
    ensures calls == RunLen(less, s[i..j]) - if e == b then 1 else 0
  {
    hide RunLen, Listed;
    calls := 0;
    e := Next(a, s, i);
    ghost var m := i + 1;
    while e != b
      invariant i < m <= j && e == s[m] && calls == m - 1 - i
      invariant RunLen(less, s[i..j]) == m - 1 - i + RunLen(less, s[m - 1..j])
      decreases j - m
    {
      RunGoesOn(less, s, m, j);
      var p := Prev(e, s, m);
      calls := calls + 1;
      if less(e.item, p.item) {
        break;
      }
      e := Next(e, s, m);
      m := m + 1;
    }
    if e == b {
      SamePlace(s, m, j);
      RunEnds(less, s, j);
    }
  }

  lemma RunGoesOn(less: Less, s: seq<Elem>, m: nat, j: nat)
    requires 0 < m < j <= |s|
    ensures RunLen(less, s[m - 1..j]) == if less(s[m].item, s[m - 1].item) then 1 else 1 + RunLen(less, s[m..j])
  {
    assert s[m - 1..j][1..] == s[m..j];
  }

  lemma RunEnds(less: Less, s: seq<Elem>, j: nat)
    requires 0 < j <= |s|
    ensures RunLen(less, s[j - 1..j]) == 1
  {
  }

  /** The move that `inplace_merge` makes: `b` goes just before `a`. */
  method MoveBefore(a: Elem, b: Elem, ghost t: seq<Elem>, ghost x: nat, ghost y: nat) returns (next: Elem)
    requires Listed(t) && 0 < x < y < |t| - 1 && t[x] == a && t[y] == b
    modifies t[x - 1], a, b, t[y - 1], t[y + 1]
    ensures next == t[y + 1] && Listed(Moved(t, x, y, y + 1))
  {
    hide Listed, Moved;
    next := Next(b, t, y);
    var p := Prev(next, t, y + 1);
    Lists.Splice(a, p, next, t, x, y, y + 1);
  }

  /** `inplace_merge`: moves single elements of the second run before larger ones of the first. */
  method InplaceMerge(a0: Elem, a1b0: Elem, b1: Elem, less: Less,
                      ghost s: seq<Elem>, ghost p: nat, ghost q: nat, ghost r: nat, ghost own: set<Elem>)
    returns (ghost calls: nat)
    requires StrictWeakOrder(less) && Listed(s) && Within(s, own) && 0 < p < q < r < |s|
    requires s[p] == a0 && s[q] == a1b0 && s[r] == b1
    requires Sorted(less, s[p..q]) && Sorted(less, s[q..r])
    modifies own
    ensures Listed(Ahead(less, s, p, q, r)) && Within(Ahead(less, s, p, q, r), own)
    ensures calls < r - p
  {
    hide Listed, Ahead, StrictWeakOrder, Sorted, Moved;
    var ok := IsSorted(a0, a1b0, less, s, p, q);
    assert ok;
    ok := IsSorted(a1b0, b1, less, s, q, r);
    assert ok;

    calls := 0;
    var a, b := a0, a1b0;
    ghost var t, x, y := s, p, q;
    while a != b && b != b1
      invariant Listed(t) && |t| == |s| && Within(t, own)
      invariant p <= x <= y <= r && (x == y ==> y < r) && calls == x - p
      invariant a == t[x] && b == t[y] && b1 == t[r]
      invariant Ahead(less, t, x, y, r) == Ahead(less, s, p, q, r)
      decreases r - x
    {
      calls := calls + 1;
      if !less(b.item, a.item) {
        KeepFirst(less, t, x, y, r);
        a := Next(a, t, x);
      } else {
        MoveSecond(less, t, x, y, r);
        b := MoveBefore(a, b, t, x, y);
        MovedWithin(t, x, y, y + 1, own);
        t := Moved(t, x, y, y + 1);
        y := y + 1;
      }
      x := x + 1;
    }
    if a == b {
      SamePlace(t, x, y);
    } else {
      SamePlace(t, y, r);
    }
    NothingAhead(less, t, x, y, r);
  }

  /** The list once the range from `x` to `y` has been merged with the one from `y` to `r`. */
  ghost function Ahead(less: Less, t: seq<Elem>, x: nat, y: nat, r: nat): seq<Elem>
    requires x <= y <= r <= |t|
  {
    t[..x] + Merge(less, t[x..y], t[y..r]) + t[r..]
  }

  lemma NothingAhead(less: Less, t: seq<Elem>, x: nat, y: nat, r: nat)
    requires x <= y <= r <= |t| && (x == y || y == r)
    ensures Ahead(less, t, x, y, r) == t
  {
    MergeNothing(less, t[x..r]);
    hide Merge;
    PartsOf(t, x, r, r);
  }

  lemma MovedWithin(t: seq<Elem>, k: nat, i: nat, j: nat, own: set<Elem>)
    requires k <= i <= j <= |t| && Within(t, own)
    ensures Within(Moved(t, k, i, j), own)
  {
  }

  /** The slices of a list in four parts. */
  lemma FourParts(p: seq<Elem>, a: seq<Elem>, b: seq<Elem>, q: seq<Elem>)
    ensures var s, i, j, k := p + a + b + q, |p|, |p| + |a|, |p| + |a| + |b|;
            && s[..i] == p && s[i..j] == a && s[j..k] == b && s[k..] == q
            && s[..i] + s[i..j] + s[j..k] + s[k..] == s
  {
  }

  lemma PartsOf(t: seq<Elem>, x: nat, y: nat, r: nat)
    requires x <= y <= r <= |t|
    ensures t == t[..x] + t[x..y] + t[y..r] + t[r..]
  {
  }

  lemma AheadOf(less: Less, p: seq<Elem>, a: seq<Elem>, b: seq<Elem>, q: seq<Elem>)
    ensures var s, i, j, k := p + a + b + q, |p|, |p| + |a|, |p| + |a| + |b|;
            k <= |s| && Ahead(less, s, i, j, k) == p + Merge(less, a, b) + q
  {
    hide Merge;
    FourParts(p, a, b, q);
  }

  lemma FirstOf(s: seq<Elem>, x: nat, y: nat)
    requires x < y <= |s|
    ensures s[x..y] == [s[x]] + s[x + 1..y] && s[..x + 1] == s[..x] + [s[x]]
  {
  }

  lemma MergeFirst(less: Less, e: Elem, a: seq<Elem>, b: seq<Elem>)
    requires b != [] && !less(b[0].item, e.item)
    ensures Merge(less, [e] + a, b) == [e] + Merge(less, a, b)
  {
    assert ([e] + a)[1..] == a;
  }

  lemma MergeSecond(less: Less, a: seq<Elem>, e: Elem, b: seq<Elem>)
    requires a != [] && less(e.item, a[0].item)
    ensures Merge(less, a, [e] + b) == [e] + Merge(less, a, b)
  {
    assert ([e] + b)[1..] == b;
  }

  /** An element leaves the front of the ranges for the part that is done. */
  lemma Done(p: seq<Elem>, e: Elem, m: seq<Elem>, q: seq<Elem>)
    ensures p + ([e] + m) + q == (p + [e]) + m + q
  {
    assert p + ([e] + m) == (p + [e]) + m;
  }

  lemma KeepFirst(less: Less, t: seq<Elem>, x: nat, y: nat, r: nat)
    requires x < y < r < |t| && !less(t[y].item, t[x].item)
    ensures Ahead(less, t, x + 1, y, r) == Ahead(less, t, x, y, r)
  {
    hide Merge;
    FirstOf(t, x, y);
    MergeFirst(less, t[x], t[x + 1..y], t[y..r]);
    Done(t[..x], t[x], Merge(less, t[x + 1..y], t[y..r]), t[r..]);
  }

  /** Moving one element over a range. */
  lemma MovedOne(p: seq<Elem>, a: seq<Elem>, e: Elem, b: seq<Elem>, q: seq<Elem>)
    ensures var s, x, y := p + a + ([e] + b) + q, |p|, |p| + |a|;
            y < |s| && Moved(s, x, y, y + 1) == (p + [e]) + a + b + q
  {
    OneFirst(p + a, e, b, q);
    FourParts(p, a, [e], b + q);
    Regroup4(p + [e] + a, b, q);
  }

  lemma OneFirst(p: seq<Elem>, e: Elem, b: seq<Elem>, q: seq<Elem>)
    ensures p + ([e] + b) + q == p + [e] + (b + q)
  {
  }

  lemma Regroup4(p: seq<Elem>, b: seq<Elem>, q: seq<Elem>)
    ensures p + b + q == p + (b + q)
  {
  }

  lemma MovedOneAt(t: seq<Elem>, x: nat, y: nat)
    requires x < y < |t|
    ensures var t' := Moved(t, x, y, y + 1);
            |t'| == |t| && t'[x + 1] == t[x] && forall i :: y < i < |t| ==> t'[i] == t[i]
  {
  }

  lemma MoveSecond(less: Less, t: seq<Elem>, x: nat, y: nat, r: nat)
    requires x < y < r < |t| && less(t[y].item, t[x].item)
    ensures var t' := Moved(t, x, y, y + 1);
            && |t'| == |t| && t'[x + 1] == t[x] && t'[y + 1] == t[y + 1] && t'[r] == t[r]
            && Ahead(less, t', x + 1, y + 1, r) == Ahead(less, t, x, y, r)
  {
    hide Ahead, Merge, Moved;
    var p, a, e, b, q := t[..x], t[x..y], t[y], t[y + 1..r], t[r..];
    PartsOf(t, x, y, r);
    FirstOf(t, y, r);
    MovedOneAt(t, x, y);
    MovedOne(p, a, e, b, q);
    AheadOf(less, p, a, [e] + b, q);
    AheadOf(less, p + [e], a, b, q);
    MergeSecond(less, a, e, b);
    Done(p, e, Merge(less, a, b), q);
  }

  // ---------- One pass ----------

  /** The list, head and tail included, when a pass is done with `done` but not with `rest`. */
  ghost function During(list: List, done: seq<Elem>, rest: seq<Elem>): seq<Elem> {
    [list.head] + done + rest + [list.tail]
  }

  lemma Slice(p: seq<Elem>, x: seq<Elem>, q: seq<Elem>)
    ensures (p + x + q)[|p|..|p| + |x|] == x
    ensures q != [] ==> (p + x + q)[|p| + |x|] == q[0]
  {
  }

  lemma WholeDuring(list: List, done: seq<Elem>, rest: seq<Elem>)
    ensures var t, k, n := During(list, done, rest), |done| + 1, |done + rest| + 1;
            && |t| == n + 1 && t[k..n] == rest && t[n] == list.tail
            && t == [list.head] + (done + rest) + [list.tail] && t[k] == (rest + [list.tail])[0]
  {
    Slice([list.head] + done, rest, [list.tail]);
  }

  lemma Regroup(p: seq<Elem>, a: seq<Elem>, b: seq<Elem>, c: seq<Elem>, q: seq<Elem>)
    ensures p + (a + b + c) + q == p + a + b + (c + q)
    ensures p + (a + b + c) + q == (p + a) + (b + c) + q
  {
    assert p + (a + b + c) == p + a + b + c == (p + a) + (b + c);
  }

  /** The ranges of two runs in the list. */
  lemma RunsDuring(list: List, done: seq<Elem>, a: seq<Elem>, b: seq<Elem>, c: seq<Elem>)
    ensures var t, k := During(list, done, a + b + c), |done| + 1;
            var q, r, n := k + |a|, k + |a| + |b|, k + |a| + |b| + |c|;
            && |t| == n + 1 && t[k..q] == a && t[q..r] == b && t[q..n] == b + c
            && t[r] == (c + [list.tail])[0]
  {
    var pre, post := [list.head] + done, [list.tail];
    Regroup(pre, a, b, c, post);
    Slice(pre, a, b + (c + post));
    Slice(pre + a, b, c + post);
    Slice(pre + a, b + c, post);
    assert pre + a + (b + (c + post)) == pre + a + b + (c + post);
  }

  lemma RegroupMerged(h: seq<Elem>, done: seq<Elem>, m: seq<Elem>, c: seq<Elem>, post: seq<Elem>)
    ensures (h + done) + m + (c + post) == h + (done + m) + c + post
  {
    assert (h + done) + m == h + (done + m);
  }

  /** The list after the two runs are merged. */
  lemma MergeDuring(less: Less, list: List, done: seq<Elem>, a: seq<Elem>, b: seq<Elem>, c: seq<Elem>)
    ensures var k := |done| + 1;
            |During(list, done, a + b + c)| == k + |a| + |b| + |c| + 1
    ensures var t, k := During(list, done, a + b + c), |done| + 1;
            Ahead(less, t, k, k + |a|, k + |a| + |b|) == During(list, done + Merge(less, a, b), c)
  {
    hide Ahead, Merge;
    var pre, post := [list.head] + done, [list.tail];
    Regroup(pre, a, b, c, post);
    AheadOf(less, pre, a, b, c + post);
    RegroupMerged([list.head], done, Merge(less, a, b), c, post);
  }

  /** What one iteration of a pass leaves for the next ones. */
  lemma PassOneStep(less: Less, done: seq<Elem>, rest: seq<Elem>)
    requires RunLen(less, rest) < |rest|
    ensures var a, b, c := FirstRun(less, rest), SecondRun(less, rest), AfterSecond(less, rest);
            && rest == a + b + c && AfterFirst(less, rest) == b + c
            && |a| == RunLen(less, rest) > 0 && |b| == RunLen(less, AfterFirst(less, rest)) > 0
            && (done + Merge(less, a, b)) + Pass(less, c) == done + Pass(less, rest)
            && PassRuns(less, rest) == 1 + PassRuns(less, c)
  {
    SplitInRuns(less, rest);
    hide FirstRun, SecondRun, AfterFirst, AfterSecond, Merge, RunLen;
    var a, b, c := FirstRun(less, rest), SecondRun(less, rest), AfterSecond(less, rest);
    assert Pass(less, rest) == Merge(less, a, b) + Pass(less, c);
  }

  lemma RunsAreSorted(less: Less, rest: seq<Elem>)
    requires StrictWeakOrder(less)
    ensures Sorted(less, FirstRun(less, rest)) && Sorted(less, SecondRun(less, rest))
  {
    RunIsSorted(less, rest);
    RunIsSorted(less, AfterFirst(less, rest));
  }

  /** A pass ends with nothing left, or with a single run that it leaves as it is. */
  lemma PassOver(less: Less, rest: seq<Elem>)
    requires rest == [] || RunLen(less, rest) == |rest|
    ensures Pass(less, rest) == rest && PassRuns(less, rest) == if rest == [] then 0 else 1
  {
  }

  /** Where the first two runs of the rest are in the list. */
  lemma TwoRunsDuring(less: Less, list: List, done: seq<Elem>, rest: seq<Elem>)
    requires StrictWeakOrder(less) && RunLen(less, rest) < |rest|
    ensures var t, k, n := During(list, done, rest), |done| + 1, |done + rest| + 1;
            var q := k + RunLen(less, rest);
            var r := q + RunLen(less, AfterFirst(less, rest));
            var m, c := Merge(less, FirstRun(less, rest), SecondRun(less, rest)), AfterSecond(less, rest);
            && k < q < r <= n && |t| == n + 1 && |m| == r - k
            && t[q..n] == AfterFirst(less, rest)
            && Sorted(less, t[k..q]) && Sorted(less, t[q..r]) && t[r] == (c + [list.tail])[0]
            && Ahead(less, t, k, q, r) == During(list, done + m, c)
  {
    hide StrictWeakOrder, Sorted, Ahead, Pass, PassRuns, RunLen, Merge;
    hide FirstRun, SecondRun, AfterFirst, AfterSecond, During;
    PassOneStep(less, done, rest);
    RunsDuring(list, done, FirstRun(less, rest), SecondRun(less, rest), AfterSecond(less, rest));
    MergeDuring(less, list, done, FirstRun(less, rest), SecondRun(less, rest), AfterSecond(less, rest));
    RunsAreSorted(less, rest);
  }

  /** The rest of the body of the inner loop of `list_sort`, when the run found is not the last one. */
  method MergeRuns(list: List, less: Less, a0: Elem, a1b0: Elem,
                   ghost done: seq<Elem>, ghost rest: seq<Elem>, ghost own: set<Elem>)
    returns (b1: Elem, ghost calls: nat)
    requires Listed(During(list, done, rest)) && Within(During(list, done, rest), own) && StrictWeakOrder(less)
    requires RunLen(less, rest) < |rest| && a0 == rest[0] && a1b0 == rest[RunLen(less, rest)]
    modifies own
    ensures var m, c := Merge(less, FirstRun(less, rest), SecondRun(less, rest)), AfterSecond(less, rest);
            && Listed(During(list, done + m, c)) && Within(During(list, done + m, c), own)
            && b1 == (c + [list.tail])[0] && RunLen(less, rest) + calls < 2 * |m|
  {
    hide Listed, Within, StrictWeakOrder, Sorted, Ahead, Pass, PassRuns, RunLen, Merge;
    hide FirstRun, SecondRun, AfterFirst, AfterSecond, During;
    ghost var t, k, n := During(list, done, rest), |done| + 1, |done + rest| + 1;
    WholeDuring(list, done, rest);
    TwoRunsDuring(less, list, done, rest);
    ghost var q := k + RunLen(less, rest);
    ghost var r, c := q + RunLen(less, AfterFirst(less, rest)), 0;
    b1, calls := FindEndOfRun(a1b0, list.tail, less, t, q, n);
    c := InplaceMerge(a0, a1b0, b1, less, t, k, q, r, own);
    calls := calls + c;
  }

  /** The body of the inner loop of `list_sort`. It breaks out of the loop when `last` is set. */
  method SortTwoRuns(list: List, less: Less, a0: Elem,
                     ghost done: seq<Elem>, ghost rest: seq<Elem>, ghost own: set<Elem>)
    returns (b1: Elem, last: bool, ghost calls: nat)
    requires Listed(During(list, done, rest)) && Within(During(list, done, rest), own) && StrictWeakOrder(less)
    requires rest != [] && a0 == rest[0]
    modifies own
    ensures last <==> RunLen(less, rest) == |rest|
    ensures last ==> Listed(During(list, done, rest)) && calls < |rest|
    ensures !last ==>
              var m, c := Merge(less, FirstRun(less, rest), SecondRun(less, rest)), AfterSecond(less, rest);
              && Listed(During(list, done + m, c)) && Within(During(list, done + m, c), own)
              && b1 == (c + [list.tail])[0] && calls < 2 * |m|
  {
    hide Listed, Within, StrictWeakOrder, RunLen, Merge, FirstRun, SecondRun, AfterSecond, During;
    ghost var t, k, n := During(list, done, rest), |done| + 1, |done + rest| + 1;
    WholeDuring(list, done, rest);
    ghost var run := RunLen(less, rest);
    PlaceDuring(list, done, rest, run);
    var a1b0;
    a1b0, calls := FindEndOfRun(a0, list.tail, less, t, k, n);
    if a1b0 == list.tail {
      SamePlace(t, k + run, n);
      return a0, true, calls;
    }
    ghost var c;
    b1, c := MergeRuns(list, less, a0, a1b0, done, rest, own);
    last, calls := false, calls + c;
  }

  lemma PlaceDuring(list: List, done: seq<Elem>, rest: seq<Elem>, i: nat)
    requires i <= |rest|
    ensures var t, k := During(list, done, rest), |done| + 1;
            k + i < |t| && t[k + i] == if i < |rest| then rest[i] else list.tail
  {
  }

  /** The body of the outer loop of `list_sort`: one pass, with the number of runs it puts out. */
  method SortPass(list: List, less: Less, ghost own: set<Elem>) returns (outputRunCnt: nat, ghost calls: nat)
    requires list.Valid() && Within(list.Nodes(), own) && StrictWeakOrder(less)
    modifies list, own
    ensures list.Valid() && Within(list.Nodes(), own)
    ensures list.elems == Pass(less, old(list.elems)) && |list.elems| == |old(list.elems)|
    ensures outputRunCnt == PassRuns(less, old(list.elems))
    ensures calls <= 2 * |old(list.elems)|
  {
    hide Listed, Within, StrictWeakOrder, Sorted, Pass, PassRuns, RunLen, Merge;
    hide FirstRun, SecondRun, AfterFirst, AfterSecond, During;
    ghost var n, done, rest := |list.elems|, [], list.elems;
    WholeDuring(list, done, rest);
    outputRunCnt, calls := 0, 0;
    var a0 := list.Begin();
    while a0 != list.tail
      invariant Listed(During(list, done, rest)) && Within(During(list, done, rest), own)
      invariant list.elems == old(list.elems) && |done + rest| == n && a0 == (rest + [list.tail])[0]
      invariant done + Pass(less, rest) == Pass(less, list.elems)
      invariant outputRunCnt + PassRuns(less, rest) == PassRuns(less, list.elems)
      invariant calls <= 2 * |done|
      decreases |rest|
    {
      outputRunCnt := outputRunCnt + 1;
      var b1, last;
      ghost var c;
      b1, last, c := SortTwoRuns(list, less, a0, done, rest, own);
      calls := calls + c;
      if last {
        PassOver(less, rest);
        break;
      }
      PassOneStep(less, done, rest);
      ghost var xs, ys, zs := FirstRun(less, rest), SecondRun(less, rest), AfterSecond(less, rest);
      done, rest := done + Merge(less, xs, ys), zs;
      a0 := b1;
    }
    WholeDuring(list, done, rest);
    if a0 == list.tail {
      SamePlace(During(list, done, rest), |done| + 1, n + 1);
      PassOver(less, rest);
    }
    list.elems := done + rest;
  }

  /** `list_sort`, with its calls of `less` outside the assertions. */
  method Sort(list: List, less: Less) returns (ghost calls: nat)
    requires list.Valid() && StrictWeakOrder(less)
    modifies list, list.Nodes()
    ensures list.Valid() && list.elems == SortBy(less, old(list.elems))
    ensures calls <= 2 * |old(list.elems)| * Passes(less, old(list.elems))
    ensures forall k: nat {:trigger Pow2(k)} :: Runs(less, old(list.elems)) <= Pow2(k) ==>
              calls <= 2 * |old(list.elems)| * if k == 0 then 1 else k
  {
    hide StrictWeakOrder, Listed, Within, Sorted, Pass, PassRuns, Passes, Runs, SortBy, Pow2;
    calls := 0;
    ghost var own, s, n := (set e | e in list.Nodes()), list.elems, 2 * |list.elems|;
    AllWithin(list.Nodes());
    ghost var passes := 0;
    while true
      invariant list.Valid() && Within(list.Nodes(), own)
      invariant |list.elems| == |s| && SortBy(less, list.elems) == SortBy(less, s)
      invariant passes + Passes(less, list.elems) == Passes(less, s)
      invariant calls <= n * passes
      decreases Runs(less, list.elems)
    {
      SortByOnePass(less, list.elems);
      var outputRunCnt;
      ghost var c;
      outputRunCnt, c := SortPass(list, less, own);
      AnotherPass(calls, c, n, passes);
      calls, passes := calls + c, passes + 1;
      if outputRunCnt <= 1 {
        break;
      }
    }
    var b := list.Begin();
    SortByIsStableSort(less, s);
    ghost var last := |s| + 1;
    assert list.Nodes()[1..last] == list.elems;
    var ok := IsSorted(b, list.tail, less, list.Nodes(), 1, last);
    assert ok;
    CallsAreLinearithmic(less, s, calls);
  }

  lemma AllWithin(t: seq<Elem>)
    ensures Within(t, set e | e in t)
  {
  }

  /** The O(n lg n) bound: if there are at most 2^k runs, there are at most 2n * max(1, k) calls of `less`. */
  lemma CallsAreLinearithmic(less: Less, s: seq<Elem>, calls: nat)
    requires StrictWeakOrder(less) && calls <= 2 * |s| * Passes(less, s)
    ensures forall k: nat {:trigger Pow2(k)} :: Runs(less, s) <= Pow2(k) ==> calls <= 2 * |s| * if k == 0 then 1 else k
  {
    hide StrictWeakOrder, Runs, Passes, Pow2;
    forall k: nat | Runs(less, s) <= Pow2(k)
      ensures calls <= 2 * |s| * if k == 0 then 1 else k
    {
      PassesAreLogarithmic(less, s, k);
      FewerPasses(2 * |s|, Passes(less, s), if k == 0 then 1 else k);
    }
  }

  lemma FewerPasses(n: nat, p: nat, q: nat)
    requires p <= q
    ensures n * p <= n * q
  {
  }

  lemma AnotherPass(calls: nat, c: nat, n: nat, passes: nat)
    requires calls <= n * passes && c <= n
    ensures calls + c <= n * (passes + 1)
  {
  }
}
