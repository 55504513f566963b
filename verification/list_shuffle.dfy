/** `list_shuffle`, with the results of `rand` as a parameter, and what it can produce. */
module ListShuffle {
  import opened Elements
  import opened Bits
  import opened Lists

  /** The position that step `i` of the shuffle of `n` elements picks for a value of `rand`. */
  function Pick(rand: nat, i: nat, n: nat): (j: nat)
    requires i < n
    ensures i <= j < n
  {
    i + rand % (n - i)
  }

  /** A choice of a position in [i, n) for every step i. */
  ghost predicate Choices(c: seq<nat>, n: nat) {
    |c| == n && forall i :: 0 <= i < n ==> i <= c[i] < n
  }

  /** The choices that the values of `rand` make. */
  ghost function Picks(rand: seq<nat>, n: nat): (c: seq<nat>)
    requires |rand| >= n
    ensures Choices(c, n) && forall i :: 0 <= i < n ==> c[i] == Pick(rand[i], i, n)
  {
    seq(n, i requires 0 <= i < n => Pick(rand[i], i, n))
  }

  /** The elements after the steps from `i` on. */
  ghost function Shuffled<T>(s: seq<T>, c: seq<nat>, i: nat): (t: seq<T>)
    requires Choices(c, |s|) && i <= |s|
    ensures |t| == |s|
    decreases |s| - i
  {
    if i == |s| then s else Shuffled(Swapped(s, i, c[i]), c, i + 1)
  }

  /** The inner loops of `list_shuffle`: the element at position `i`. */
  method ElementAt(list: List, i: nat) returns (e: Elem)
    requires list.Valid() && i < |list.elems|
    ensures e == list.elems[i]
  {
    e := list.Begin();
    for k := 0 to i
      invariant e == list.Nodes()[k + 1]
    {
      e := Next(e, list.Nodes(), k + 1);
    }
  }

  /** One step of the shuffle. */
  method ShuffleStep(list: List, i: nat, j: nat, ghost own: set<Elem>)
    requires list.Valid() && i < |list.elems| && j < |list.elems| && Within(list.Nodes(), own)
    modifies list, own
    ensures list.Valid() && Within(list.Nodes(), own)
    ensures list.elems == Swapped(old(list.elems), i, j)
  {
    hide Listed, Swapped;
    var a := ElementAt(list, i);
    var b := ElementAt(list, j);
    ghost var s := list.Nodes();
    assert {s[i], s[i + 1], s[i + 2], s[j], s[j + 1], s[j + 2]} <= own;
    Swap(a, b, s, i + 1, j + 1);
    list.elems := Swapped(list.elems, i, j);
    SwappedInside(s[0], old(list.elems), s[|s| - 1], i, j);
    SwappedWithin(s, i + 1, j + 1, own);
  }

  lemma SwappedWithin(s: seq<Elem>, i: nat, j: nat, own: set<Elem>)
    requires i < |s| && j < |s| && Within(s, own)
    ensures Within(Swapped(s, i, j), own)
  {
  }

  lemma SwappedInside<T>(x: T, s: seq<T>, y: T, i: nat, j: nat)
    requires i < |s| && j < |s|
    ensures Swapped([x] + s + [y], i + 1, j + 1) == [x] + Swapped(s, i, j) + [y]
  {
  }

  /** `list_shuffle`. */
  method Shuffle(list: List, rand: seq<nat>)
    requires list.Valid() && |rand| >= |list.elems|
    modifies list, list.Nodes()
    ensures list.Valid()
    ensures list.elems == Shuffled(old(list.elems), Picks(rand, |old(list.elems)|), 0)
  {
    hide Listed, Picks, Swapped, Shuffled;
    var size := list.Size();
    ghost var s, c, own := list.elems, Picks(rand, |list.elems|), set e | e in list.Nodes();
    if size <= 1 {
      ShortStays(s, c);
      return;
    }
    for i := 0 to size
      invariant list.Valid() && |list.elems| == size && Within(list.Nodes(), own)
      invariant Shuffled(list.elems, c, i) == Shuffled(s, c, 0)
    {
      var j := Pick(rand[i], i, size);
      ShuffleNext(list.elems, c, i);
      ShuffleStep(list, i, j, own);
    }
    ShuffleDone(list.elems, c);
  }

  lemma ShuffleDone<T>(s: seq<T>, c: seq<nat>)
    requires Choices(c, |s|)
    ensures Shuffled(s, c, |s|) == s
  {
  }

  lemma ShortStays<T>(s: seq<T>, c: seq<nat>)
    requires Choices(c, |s|) && |s| <= 1
    ensures Shuffled(s, c, 0) == s
  {
  }

  // ---------- The shuffle is a bijection from choices to permutations ----------

  lemma {:induction false} ShuffleIsPermutation<T>(s: seq<T>, c: seq<nat>, i: nat)
    requires Choices(c, |s|) && i <= |s|
    ensures multiset(Shuffled(s, c, i)) == multiset(s)
    ensures Shuffled(s, c, i)[..i] == s[..i]
    decreases |s| - i
  {
    if i < |s| {
      var t := Swapped(s, i, c[i]);
      SwappedTwice(s, i, c[i]);
      ShuffleIsPermutation(t, c, i + 1);
      assert t[..i] == s[..i];
      assert Shuffled(s, c, i)[..i] == Shuffled(s, c, i)[..i + 1][..i];
    }
  }

  ghost predicate Distinct<T>(s: seq<T>) {
    forall i, j :: 0 <= i < j < |s| ==> s[i] != s[j]
  }

  /** What a step has put at its position stays there: it is the chosen element. */
  lemma ShuffledAt<T>(s: seq<T>, c: seq<nat>, i: nat)
    requires Choices(c, |s|) && i < |s|
    ensures Shuffled(s, c, i)[i] == s[c[i]]
  {
    var t := Swapped(s, i, c[i]);
    ShuffleIsPermutation(t, c, i + 1);
    assert Shuffled(t, c, i + 1)[i] == Shuffled(t, c, i + 1)[..i + 1][i] == t[..i + 1][i];
  }

  /** Different choices give different results. */
  lemma {:induction false} ShuffleIsInjective<T>(s: seq<T>, c: seq<nat>, d: seq<nat>, i: nat)
    requires Distinct(s) && Choices(c, |s|) && Choices(d, |s|) && i <= |s|
    requires Shuffled(s, c, i) == Shuffled(s, d, i)
    ensures c[i..] == d[i..]
    decreases |s| - i
  {
    if i < |s| {
      ShuffledAt(s, c, i);
      ShuffledAt(s, d, i);
      assert c[i] == d[i];
      var t := Swapped(s, i, c[i]);
      assert Distinct(t);
      ShuffleIsInjective(t, c, d, i + 1);
      assert c[i..] == [c[i]] + c[i + 1..] && d[i..] == [d[i]] + d[i + 1..];
    }
  }

  /** The step that puts the element `t[i]` in its place. */
  lemma PutInPlace<T>(s: seq<T>, t: seq<T>, i: nat) returns (j: nat)
    requires multiset(s) == multiset(t) && i < |s| == |t| && s[..i] == t[..i]
    ensures i <= j < |s| && |Swapped(s, i, j)| == |s|
    ensures Swapped(s, i, j)[..i + 1] == t[..i + 1] && multiset(Swapped(s, i, j)) == multiset(t)
  {
    j := PlaceOf(s, t, i);
    SwappedTwice(s, i, j);
    SwappedFront(s, i, j);
    hide Swapped;
    FrontSnoc(Swapped(s, i, j), i);
    FrontSnoc(t, i);
  }

  lemma SwappedFront<T>(s: seq<T>, i: nat, j: nat)
    requires i <= j < |s|
    ensures |Swapped(s, i, j)| == |s| && Swapped(s, i, j)[..i] == s[..i] && Swapped(s, i, j)[i] == s[j]
  {
  }

  lemma FrontSnoc<T>(s: seq<T>, i: nat)
    requires i < |s|
    ensures s[..i + 1] == s[..i] + [s[i]]
  {
  }

  lemma ShuffleNext<T>(s: seq<T>, c: seq<nat>, i: nat)
    requires Choices(c, |s|) && i < |s|
    ensures Shuffled(s, c, i) == Shuffled(Swapped(s, i, c[i]), c, i + 1)
  {
    hide Swapped;
  }

  lemma NothingToShuffle<T>(s: seq<T>, t: seq<T>) returns (c: seq<nat>)
    requires |s| == |t| && s[..|s|] == t[..|s|]
    ensures Choices(c, |s|) && Shuffled(s, c, |s|) == t
  {
    c := seq(|s|, k => k);
    assert s == s[..|s|] && t == t[..|s|];
  }

  /** Every permutation is the result of some choices, which only the positions from `i` on decide. */
  lemma {:induction false} ShuffleIsOnto<T>(s: seq<T>, t: seq<T>, i: nat) returns (c: seq<nat>)
    requires multiset(s) == multiset(t) && |s| == |t| && i <= |s| && s[..i] == t[..i]
    ensures Choices(c, |s|) && Shuffled(s, c, i) == t
    decreases |s| - i
  {
    hide Swapped, Shuffled;
    if i == |s| {
      c := NothingToShuffle(s, t);
    } else {
      var j := PutInPlace(s, t, i);
      var d := ShuffleIsOnto(Swapped(s, i, j), t, i + 1);
      c := d[i := j];
      SameFrom(Swapped(s, i, j), d, c, i + 1);
      ShuffleNext(s, c, i);
    }
  }

  lemma PlaceOf<T>(s: seq<T>, t: seq<T>, i: nat) returns (j: nat)
    requires multiset(s) == multiset(t) && i < |s| == |t| && s[..i] == t[..i]
    ensures i <= j < |s| && s[j] == t[i]
  {
    RestIsPermutation(s, t, i);
    var u, v := s[i..], t[i..];
    assert v[0] == t[i] && v[0] in multiset(v);
    var k :| 0 <= k < |u| && u[k] == t[i];
    j := i + k;
  }

  lemma RestIsPermutation<T>(s: seq<T>, t: seq<T>, i: nat)
    requires multiset(s) == multiset(t) && i <= |s| == |t| && s[..i] == t[..i]
    ensures multiset(s[i..]) == multiset(t[i..])
  {
    assert s == s[..i] + s[i..] && t == t[..i] + t[i..];
    assert multiset(s[i..]) == multiset(s) - multiset(s[..i]);
  }

  lemma {:induction false} SameFrom<T>(s: seq<T>, c: seq<nat>, d: seq<nat>, i: nat)
    requires Choices(c, |s|) && Choices(d, |s|) && i <= |s| && c[i..] == d[i..]
    ensures Shuffled(s, c, i) == Shuffled(s, d, i)
    decreases |s| - i
  {
    if i < |s| {
      assert c[i] == c[i..][0] == d[i..][0] == d[i];
      assert c[i + 1..] == c[i..][1..] && d[i + 1..] == d[i..][1..];
      SameFrom(Swapped(s, i, c[i]), c, d, i + 1);
    }
  }

  /** Over all choices, a list of distinct elements is shuffled into each of its
      permutations, and into nothing else, by exactly one choice. */
  lemma ShuffleIsBijection<T>(s: seq<T>, t: seq<T>) returns (c: seq<nat>)
    requires (forall i, j :: 0 <= i < j < |s| ==> s[i] != s[j]) && multiset(s) == multiset(t)
    ensures Choices(c, |s|) && Shuffled(s, c, 0) == t
    ensures forall d :: Choices(d, |s|) && Shuffled(s, d, 0) == t ==> d == c
  {
    assert |multiset(s)| == |s| && |multiset(t)| == |t|;
    c := ShuffleIsOnto(s, t, 0);
    forall d | Choices(d, |s|) && Shuffled(s, d, 0) == t
      ensures d == c
    {
      ShuffleIsInjective(s, c, d, 0);
      assert c[0..] == c && d[0..] == d;
    }
  }

  /** Counting from `i`, step `i` picks the remainder of what `rand` returns by the number of the elements left. */
  lemma PickIs(rand: nat, i: nat, n: nat)
    requires i < n
    ensures rand < n - i ==> Pick(rand, i, n) == i + rand
    ensures Pick(rand + (n - i), i, n) == Pick(rand, i, n)
  {
    var m := n - i;
    assert rand == rand / m * m + rand % m;
    assert rand + m == (rand / m + 1) * m + rand % m;
    QuotientIs(rand + m, rand / m + 1, m, rand % m);
  }

  lemma PickUndone(j: nat, i: nat, n: nat)
    requires i <= j < n
    ensures Pick(j - i, i, n) == j
  {
  }

  /** Every choice comes from some results of `rand`. */
  lemma EveryChoiceIsPicked(c: seq<nat>, n: nat) returns (rand: seq<nat>)
    requires Choices(c, n)
    ensures |rand| == n && Picks(rand, n) == c
  {
    rand := seq(n, i requires 0 <= i < n => c[i] - i);
    var d := Picks(rand, n);
    forall i | 0 <= i < n
      ensures d[i] == c[i]
    {
      PickUndone(c[i], i, n);
    }
    assert d == c;
  }
}
