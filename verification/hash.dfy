/** The bucket lists of a hash table, taken together. */
module Buckets {
  import opened Elements
  import opened Lists
  import opened HashTheory

  /** The list is well-formed, on elements that `own` gives to it, and holds `elems`. */
  ghost predicate ListOk(list: List, own: set<Elem>, elems: seq<Elem>)
    reads list, own
  {
    Within(list.Nodes(), own) && list.Valid() && list.elems == elems
  }

  /** Some lists, the elements that each of them owns, a set that has all of these, and what the lists hold. */
  datatype Family = Family(lists: seq<List>, heads: set<List>, own: seq<set<Elem>>, repr: set<Elem>, chains: Chains)

  ghost predicate Under(own: seq<set<Elem>>, repr: set<Elem>) {
    forall i {:trigger own[i]} :: 0 <= i < |own| ==> own[i] <= repr
  }

  ghost predicate Among(lists: seq<List>, heads: set<List>) {
    forall i {:trigger lists[i]} :: 0 <= i < |lists| ==> lists[i] in heads
  }

  /** Two lists share nothing. */
  ghost predicate ListsApart(lists: seq<List>, own: seq<set<Elem>>, i: nat, j: nat)
    requires i < |lists| == |own| && j < |lists|
  {
    lists[i] != lists[j] && own[i] !! own[j]
  }

  ghost predicate AllApart(lists: seq<List>, own: seq<set<Elem>>) {
    && |own| == |lists|
    && (forall i, j :: 0 <= i < |lists| && 0 <= j < |lists| && i != j ==> ListsApart(lists, own, i, j))
  }

  /** Every list is well-formed on elements of its own. */
  ghost predicate Good(f: Family)
    reads f.heads, f.repr
  {
    && |f.own| == |f.lists| == |f.chains| && AllApart(f.lists, f.own) && Under(f.own, f.repr)
    && Among(f.lists, f.heads)
    && (forall i :: 0 <= i < |f.lists| ==> ListOk(f.lists[i], f.own[i], f.chains[i]))
  }

  ghost predicate Owned(own: seq<set<Elem>>, e: Elem) {
    exists i :: 0 <= i < |own| && e in own[i]
  }

  /** The family after `e` was pushed to the front of the list at `k`. */
  ghost function Pushed(f: Family, k: nat, e: Elem): (f': Family)
    requires k < |f.own| && k < |f.chains|
    ensures f'.lists == f.lists && f'.heads == f.heads
    ensures f'.chains == f.chains[k := [e] + f.chains[k]] && f'.repr == f.repr + {e}
  {
    Family(f.lists, f.heads, f.own[k := f.own[k] + {e}], f.repr + {e}, f.chains[k := [e] + f.chains[k]])
  }

  /** The family after the element at place `p` of the list at `k` was removed. */
  ghost function Pulled(f: Family, k: nat, p: nat): (f': Family)
    requires k < |f.own| && k < |f.chains| && p < |f.chains[k]|
    ensures f'.lists == f.lists && f'.heads == f.heads && f'.chains == f.chains[k := Without(f.chains[k], p)]
    ensures f'.repr == f.repr - {f.chains[k][p]}
  {
    var e := f.chains[k][p];
    Family(f.lists, f.heads, f.own[k := f.own[k] - {e}], f.repr - {e}, f.chains[k := Without(f.chains[k], p)])
  }

  lemma StillApart(lists: seq<List>, own: seq<set<Elem>>, k: nat, e: Elem)
    requires AllApart(lists, own) && k < |own|
    ensures AllApart(lists, own[k := own[k] - {e}])
    ensures !Owned(own, e) ==> AllApart(lists, own[k := own[k] + {e}])
  {
    var less, more := own[k := own[k] - {e}], own[k := own[k] + {e}];
    forall i, j | 0 <= i < |lists| && 0 <= j < |lists| && i != j
      ensures ListsApart(lists, less, i, j)
    {
      assert ListsApart(lists, own, i, j);
    }
    if !Owned(own, e) {
      forall i, j | 0 <= i < |lists| && 0 <= j < |lists| && i != j
        ensures ListsApart(lists, more, i, j)
      {
        assert ListsApart(lists, own, i, j);
      }
    }
  }

  /** The other lists are apart from the one at `k`. */
  lemma OthersApart(lists: seq<List>, own: seq<set<Elem>>, k: nat)
    requires AllApart(lists, own) && k < |own|
    ensures forall i {:trigger lists[i]} :: 0 <= i < |lists| && i != k ==> lists[i] != lists[k] && own[i] !! own[k]
  {
    forall i | 0 <= i < |lists| && i != k
      ensures lists[i] != lists[k] && own[i] !! own[k]
    {
      assert ListsApart(lists, own, i, k);
    }
  }

  lemma ListAt(f: Family, i: nat)
    requires Good(f) && i < |f.lists|
    ensures |f.own| == |f.lists| == |f.chains| && f.own[i] <= f.repr && f.lists[i] in f.heads
    ensures ListOk(f.lists[i], f.own[i], f.chains[i])
    ensures f.lists[i].Valid() && f.lists[i].elems == f.chains[i]
  {
  }

  lemma OwnedAt(f: Family, i: nat, p: nat)
    requires Good(f) && i < |f.lists| && p < |f.chains[i]|
    ensures |f.own| == |f.lists| && f.chains[i][p] in f.own[i] && f.own[i] <= f.repr
  {
    assert ListOk(f.lists[i], f.own[i], f.chains[i]);
    assert f.lists[i].Nodes()[p + 1] == f.chains[i][p];
  }

  /** `list_push_front`, on elements that the list owns. */
  method PushOwn(list: List, e: Elem, ghost own: set<Elem>, ghost elems: seq<Elem>)
    requires ListOk(list, own, elems) && e !in own
    modifies list, own, e
    ensures ListOk(list, own + {e}, [e] + elems)
  {
    hide Listed;
    ghost var s := list.Nodes();
    assert s[0] in own && s[1] in own;
    list.PushFront(e);
    forall i | 0 <= i < |list.Nodes()|
      ensures list.Nodes()[i] in own + {e}
    {
      assert list.Nodes()[i] == if i == 0 then s[0] else if i == 1 then e else s[i - 1];
    }
  }

  /** `list_remove`, which needs no list but only the element. */
  method RemoveOwn(e: Elem, ghost list: List, ghost p: nat, ghost own: set<Elem>, ghost elems: seq<Elem>)
    requires ListOk(list, own, elems) && p < |elems| && elems[p] == e
    modifies list, own
    ensures ListOk(list, own - {e}, Without(elems, p))
  {
    hide Listed;
    ghost var s := list.Nodes();
    assert s[p] in own && s[p + 2] in own;
    RemovedIsGone(s, p + 1);
    var _ := Remove(e, s, p + 1);
    list.elems := Without(elems, p);
    assert s[..p + 1] + s[p + 2..] == list.Nodes();
    forall i | 0 <= i < |list.Nodes()|
      ensures list.Nodes()[i] in own - {e}
    {
      assert list.Nodes()[i] == s[if i <= p then i else i + 1];
    }
  }

  /** `list_push_front` on one of the lists. */
  method PushTo(list: List, e: Elem, ghost f: Family, ghost k: nat) returns (ghost f': Family)
    requires Good(f) && k < |f.lists| && f.lists[k] == list && e !in f.repr
    modifies list, f.own[k], e
    ensures f' == Pushed(f, k, e) && Good(f')
  {
    hide ListOk, AllApart;
    OthersApart(f.lists, f.own, k);
    StillApart(f.lists, f.own, k, e);
    assert forall i {:trigger f.own[i]} :: 0 <= i < |f.own| ==> e !in f.own[i];
    PushOwn(list, e, f.own[k], f.chains[k]);
    f' := Pushed(f, k, e);
  }

  /** `list_remove` on one of the lists. */
  method RemoveFrom(e: Elem, ghost f: Family, ghost k: nat, ghost p: nat) returns (ghost f': Family)
    requires Good(f) && k < |f.lists| && p < |f.chains[k]| && f.chains[k][p] == e
    modifies f.lists[k], f.own[k]
    ensures f' == Pulled(f, k, p) && Good(f')
  {
    hide ListOk, AllApart;
    OwnedAt(f, k, p);
    OthersApart(f.lists, f.own, k);
    StillApart(f.lists, f.own, k, e);
    assert forall i {:trigger f.own[i]} :: 0 <= i < |f.own| && i != k ==> e !in f.own[i];
    RemoveOwn(e, f.lists[k], p, f.own[k], f.chains[k]);
    f' := Pulled(f, k, p);
  }

  lemma OnlyHeaders(lists: seq<List>, own: seq<set<Elem>>, k: nat, two: set<Elem>)
    requires AllApart(lists, own) && k < |own| && two <= own[k]
    ensures AllApart(lists, own[k := two])
  {
    var own' := own[k := two];
    forall i, j | 0 <= i < |lists| && 0 <= j < |lists| && i != j
      ensures ListsApart(lists, own', i, j)
    {
      assert ListsApart(lists, own, i, j);
    }
  }

  /** The family after the list at `k` was initialized again. */
  ghost function Emptied(f: Family, k: nat): (f': Family)
    requires k < |f.own| && k < |f.chains| && k < |f.lists|
    ensures f'.lists == f.lists && f'.heads == f.heads && f'.chains == f.chains[k := []]
    ensures f'.repr <= f.repr
  {
    var two := {f.lists[k].head, f.lists[k].tail};
    Family(f.lists, f.heads, f.own[k := two], f.repr - (f.own[k] - two), f.chains[k := []])
  }

  method InitOwn(list: List, ghost own: set<Elem>, ghost elems: seq<Elem>)
    requires ListOk(list, own, elems)
    modifies list, own
    ensures ListOk(list, {list.head, list.tail}, [])
    ensures {list.head, list.tail} <= own && list.head !in elems && list.tail !in elems
  {
    var s := list.Nodes();
    assert s[0] in own && s[|s| - 1] in own && s[0] != s[|s| - 1];
    forall i | 0 <= i < |elems|
      ensures elems[i] != list.head && elems[i] != list.tail
    {
      assert elems[i] == s[i + 1];
    }
    list.Init();
  }

  /** `list_init` on one of the lists, which forgets its elements. */
  method InitOne(list: List, ghost f: Family, ghost k: nat) returns (ghost f': Family)
    requires Good(f) && k < |f.lists| && f.lists[k] == list
    modifies list, f.own[k]
    ensures f' == Emptied(f, k) && Good(f') && forall e :: e in f.chains[k] ==> e !in f'.repr
  {
    hide ListOk, AllApart;
    ListAt(f, k);
    OthersApart(f.lists, f.own, k);
    forall p | 0 <= p < |f.chains[k]|
      ensures f.chains[k][p] in f.own[k]
    {
      OwnedAt(f, k, p);
    }
    InitOwn(list, f.own[k], f.chains[k]);
    OnlyHeaders(f.lists, f.own, k, {list.head, list.tail});
    f' := Emptied(f, k);
  }

  /** The array holds the lists from `n` on. */
  ghost predicate HoldsFrom(a: array<List>, lists: seq<List>, n: nat)
    reads a
  {
    n <= |lists| && a[..] == lists[n..]
  }

  lemma HoldsLater(a: array<List>, lists: seq<List>, all: seq<List>, n: nat)
    requires HoldsFrom(a, lists, 0) && n <= |all| && all[n..] == lists
    ensures HoldsFrom(a, all, n)
  {
  }

  method At(a: array<List>, i: nat, ghost lists: seq<List>, ghost n: nat) returns (l: List)
    requires HoldsFrom(a, lists, n) && i < |lists| - n
    ensures l == lists[n + i]
  {
    assert a[..][i] == lists[n..][i];
    l := a[i];
  }

  // ---------- Families side by side ----------

  ghost function Both(a: Family, b: Family): Family {
    Family(a.lists + b.lists, a.heads + b.heads, a.own + b.own, a.repr + b.repr, a.chains + b.chains)
  }

  /** The lists from `n` on. */
  ghost function Latter(f: Family, n: nat): Family
    requires n <= |f.lists| && n <= |f.own| && n <= |f.chains|
  {
    Family(f.lists[n..], f.heads, f.own[n..], f.repr, f.chains[n..])
  }

  lemma BothApart(a: Family, b: Family)
    requires AllApart(a.lists, a.own) && Under(a.own, a.repr) && Among(a.lists, a.heads)
    requires AllApart(b.lists, b.own) && Under(b.own, b.repr) && Among(b.lists, b.heads)
    requires a.heads !! b.heads && a.repr !! b.repr
    ensures AllApart(a.lists + b.lists, a.own + b.own)
  {
    var c, o, n := a.lists + b.lists, a.own + b.own, |a.lists|;
    forall i, j | 0 <= i < |c| && 0 <= j < |c| && i != j
      ensures ListsApart(c, o, i, j)
    {
      if i < n && j < n {
        assert ListsApart(a.lists, a.own, i, j);
      } else if i >= n && j >= n {
        assert ListsApart(b.lists, b.own, i - n, j - n);
      } else {
        assert c[i] in (if i < n then a else b).heads && c[j] in (if j < n then a else b).heads;
        assert o[i] <= (if i < n then a else b).repr && o[j] <= (if j < n then a else b).repr;
      }
    }
  }

  lemma BothUnder(own: seq<set<Elem>>, repr: set<Elem>, own': seq<set<Elem>>, repr': set<Elem>)
    requires Under(own, repr) && Under(own', repr')
    ensures Under(own + own', repr + repr')
  {
  }

  /** Two families of lists that share nothing are one family. */
  lemma BothGood(a: Family, b: Family)
    requires Good(a) && Good(b)
    requires a.heads !! b.heads && a.repr !! b.repr
    ensures Good(Both(a, b))
  {
    hide AllApart, ListOk, Under;
    BothApart(a, b);
    BothUnder(a.own, a.repr, b.own, b.repr);
    var f, n := Both(a, b), |a.lists|;
    forall i | 0 <= i < |f.lists|
      ensures ListOk(f.lists[i], f.own[i], f.chains[i])
    {
      if i < n {
        assert ListOk(a.lists[i], a.own[i], a.chains[i]);
      } else {
        assert ListOk(b.lists[i - n], b.own[i - n], b.chains[i - n]);
      }
    }
  }

  lemma LatterGood(f: Family, n: nat)
    requires Good(f) && n <= |f.lists|
    ensures |f.own| == |f.chains| == |f.lists| && Good(Latter(f, n))
  {
    hide ListOk;
    var g := Latter(f, n);
    forall i | 0 <= i < |g.lists|
      ensures ListOk(g.lists[i], g.own[i], g.chains[i]) && g.own[i] <= g.repr
    {
      assert ListOk(f.lists[n + i], f.own[n + i], f.chains[n + i]);
    }
    forall i, j | 0 <= i < |g.lists| && 0 <= j < |g.lists| && i != j
      ensures ListsApart(g.lists, g.own, i, j)
    {
      assert ListsApart(f.lists, f.own, n + i, n + j);
    }
  }

  // ---------- New buckets ----------

  method NewBucket() returns (l: List, ghost f: Family)
    ensures fresh(l) && f.lists == [l] && f.chains == [[]] && Good(f) && fresh(f.heads) && fresh(f.repr)
  {
    l := new List();
    f := Family([l], {l}, [{l.head, l.tail}], {l.head, l.tail}, [[]]);
  }

  method OneMoreBucket(ghost f: Family) returns (l: List, ghost f': Family)
    requires Good(f)
    ensures Good(f') && fresh(l) && fresh(f'.heads - f.heads) && fresh(f'.repr - f.repr)
    ensures f'.lists == f.lists + [l] && f'.chains == f.chains + [[]]
  {
    hide Good;
    l, f' := NewBucket();
    BothGood(f, f');
    f' := Both(f, f');
  }

  lemma EmptyGrows(n: nat)
    ensures Empty(n) + [[]] == Empty(n + 1)
  {
  }

  /** New storage for `n` empty buckets. */
  method NewBuckets(n: nat) returns (a: array<List>, ghost f: Family)
    requires n > 0
    ensures Good(f) && |f.lists| == n && f.chains == Empty(n) && HoldsFrom(a, f.lists, 0)
    ensures fresh(a) && fresh(f.heads) && fresh(f.repr)
  {
    hide Good, Empty;
    var first;
    first, f := NewBucket();
    a := new List[n](_ => first);
    assert Empty(1) == [[]];
    for i := 1 to n
      invariant |f.lists| == i && forall j :: 0 <= j < i ==> a[j] == f.lists[j]
      invariant Good(f) && f.chains == Empty(i)
      invariant fresh(a) && fresh(f.heads) && fresh(f.repr)
    {
      var l;
      l, f := OneMoreBucket(f);
      EmptyGrows(i);
      a[i] := l;
    }
    assert a[..] == f.lists;
  }
}

/** `struct hash` and its operations. */
module HashTables {
  import opened Elements
  import opened Bits
  import opened Lists
  import opened HashTheory
  import opened Buckets
  import opened Wrappers

  /** `find_elem`: searches one bucket. */
  method FindElem(bucket: List, env: Env, a: Item) returns (r: Elem?, ghost p: nat)
    requires bucket.Valid()
    ensures p == PlaceIn(env, bucket.elems, a)
    ensures var k := PlaceIn(env, bucket.elems, a); r == if k < |bucket.elems| then bucket.elems[k] else null
  {
    hide PlaceIn, Listed;
    p := 0;
    var i := bucket.Begin();
    ghost var s := bucket.Nodes();
    assert bucket.elems[0..] == bucket.elems;
    while i != bucket.tail
      invariant p <= |bucket.elems| && i == s[p + 1]
      invariant PlaceIn(env, bucket.elems, a) == p + PlaceIn(env, bucket.elems[p..], a)
      decreases |bucket.elems| - p
    {
      PlaceInRest(env, bucket.elems, a, p);
      if !env.less(i.item, a, env.aux) && !env.less(a, i.item, env.aux) {
        return i, p;
      }
      i := Next(i, s, p + 1);
      p := p + 1;
    }
    SamePlace(s, p + 1, |s| - 1);
    PlaceInNothing(env, bucket.elems, a);
    return null, p;
  }

  lemma PlaceInRest(env: Env, chain: seq<Elem>, a: Item, p: nat)
    requires p < |chain|
    ensures PlaceIn(env, chain[p..], a) == if env.Same(chain[p].item, a) then 0 else 1 + PlaceIn(env, chain[p + 1..], a)
  {
    assert chain[p..][1..] == chain[p + 1..];
  }

  lemma PlaceInNothing(env: Env, chain: seq<Elem>, a: Item)
    ensures PlaceIn(env, chain[|chain|..], a) == 0
  {
  }

  /** The search for the bucket count in `rehash`. */
  method NewBucketCnt(elemCnt: nat) returns (n: nat)
    ensures n == IdealBuckets(elemCnt)
  {
    n := elemCnt / 2;
    if n < 4 {
      n := 4;
    }
    ghost var m := n;
    while !IsPowerOf2(n)
      invariant 0 < n && FloorPow2(n) == FloorPow2(m)
      decreases n
    {
      TurnOffKeepsFloor(n);
      n := TurnOffLeast1Bit(n);
    }
    IsPowerOf2Iff(n);
  }

  /** The first element that is left to be redistributed. */
  lemma {:induction false} NextToMove(c: Chains, i: nat)
    requires i < |c| && c[i] != [] && forall j :: 0 <= j < i ==> c[j] == []
    ensures Flat(c) == [c[i][0]] + Flat(c[i := Without(c[i], 0)])
  {
    hide Flat, All, Without;
    var e, x := c[i][0], Without(c[i], 0);
    UpdateParts(c, i, x);
    FirstChain(c);
    FirstChain(c[i := x]);
    if i == 0 {
      FirstMoves(c[0], Flat(c[1..]));
    } else {
      NextToMove(c[1..], i - 1);
      NothingBefore(Flat(c[1..]), Flat(c[1..][i - 1 := x]));
    }
  }

  lemma FirstMoves(s: seq<Elem>, t: seq<Elem>)
    requires s != []
    ensures s + t == [s[0]] + (Without(s, 0) + t)
  {
  }

  lemma NothingBefore(s: seq<Elem>, t: seq<Elem>)
    ensures [] + s == s && [] + t == t
  {
  }

  /** What the new buckets hold once all the elements left in the first `n` lists have moved. */
  ghost function Moving(env: Env, c: Chains, n: nat): Chains
    requires n <= |c| && IsPow2(|c| - n)
  {
    Distribute(env, Flat(c[..n]), c[n..])
  }

  /** The chains after the first element of chain `i` has moved to its bucket among those from `n` on. */
  ghost function AfterMove(env: Env, c: Chains, n: nat, i: nat): (d: Chains)
    requires i < n <= |c| && IsPow2(|c| - n) && c[i] != []
    ensures |d| == |c|
  {
    BucketInRange(env, c[i][0].item, |c| - n);
    var e, c', k := c[i][0], c[i := Without(c[i], 0)], n + env.Bucket(c[i][0].item, |c| - n);
    c'[k := [e] + c'[k]]
  }

  lemma AfterMoveAt(env: Env, c: Chains, n: nat, i: nat)
    requires i < n <= |c| && IsPow2(|c| - n) && c[i] != []
    ensures var k, c' := n + env.Bucket(c[i][0].item, |c| - n), c[i := Without(c[i], 0)];
            k < |c| && AfterMove(env, c, n, i) == c'[k := [c[i][0]] + c'[k]]
    ensures AfterMove(env, c, n, i)[i] == c[i][1..]
  {
    BucketInRange(env, c[i][0].item, |c| - n);
  }

  lemma MoveStep(env: Env, c: Chains, n: nat, i: nat)
    requires i < n <= |c| && IsPow2(|c| - n)
    requires c[i] != [] && forall j :: 0 <= j < i ==> c[j] == []
    ensures Moving(env, AfterMove(env, c, n, i), n) == Moving(env, c, n)
    ensures AfterMove(env, c, n, i)[i] == c[i][1..]
    ensures forall j :: 0 <= j < i ==> AfterMove(env, c, n, i)[j] == []
  {
    var e, c' := c[i][0], c[i := Without(c[i], 0)];
    BucketInRange(env, e.item, |c| - n);
    var c'' := AfterMove(env, c, n, i);
    assert c'[n..] == c[n..] && c'[..n] == c[..n][i := Without(c[..n][i], 0)];
    assert c''[n..] == Push(env, c[n..], e) && c''[..n] == c'[..n];
    NextToMove(c[..n], i);
  }

  /** `list_remove` from one bucket and `list_push_front` on another one. */
  method MoveBetween(elem: Elem, to: List, ghost f: Family, ghost i: nat, ghost k: nat) returns (ghost f': Family)
    requires Good(f) && i < |f.lists| && k < |f.lists| && i != k
    requires f.lists[k] == to && f.chains[i] != [] && elem == f.chains[i][0]
    modifies f.heads, f.repr
    ensures Good(f') && f'.lists == f.lists && f'.heads == f.heads && f'.repr == f.repr
    ensures f'.chains == var c := f.chains[i := Without(f.chains[i], 0)]; c[k := [elem] + c[k]]
  {
    hide Good, ListOk, Owned, Without, Pushed, Pulled;
    ListAt(f, i);
    ListAt(f, k);
    OwnedAt(f, i, 0);
    f' := RemoveFrom(elem, f, i, 0);
    ListAt(f', k);
    f' := PushTo(to, elem, f', k);
  }

  /** `list_next` of the first element. */
  method Second(list: List) returns (e: Elem)
    requires list.Valid() && list.elems != []
    ensures e == (list.elems[1..] + [list.tail])[0]
  {
    var first := list.Begin();
    e := Next(first, list.Nodes(), 1);
  }

  /** One iteration of the inner loop of `rehash`: `elem`, the first element of the list at `i`, moves. */
  method MoveFirst(env: Env, elem: Elem, from: List, newBuckets: array<List>, newBucketCnt: nat,
                   ghost f: Family, ghost n: nat, ghost i: nat)
    returns (next: Elem, ghost f': Family)
    requires Good(f) && |f.lists| == |f.chains| == n + newBucketCnt && i < n && IsPow2(newBucketCnt)
    requires HoldsFrom(newBuckets, f.lists, n) && f.lists[i] == from
    requires f.chains[i] != [] && elem == f.chains[i][0]
    modifies f.heads, f.repr
    ensures Good(f') && f'.lists == f.lists && f'.heads == f.heads && f'.repr == f.repr
    ensures f'.chains == AfterMove(env, f.chains, n, i)
    ensures next == (f'.chains[i] + [from.tail])[0]
  {
    hide Good, ListOk, IsPow2, AfterMove, Without, List.Valid, HoldsFrom;
    ListAt(f, i);
    AfterMoveAt(env, f.chains, n, i);
    next := Second(from);
    var idx := env.Bucket(elem.item, newBucketCnt);
    var to := At(newBuckets, idx, f.lists, n);
    f' := MoveBetween(elem, to, f, i, n + idx);
  }

  /** The inner loop of `rehash`, which empties the list at `i`. */
  method MoveList(env: Env, from: List, newBuckets: array<List>, newBucketCnt: nat,
                  ghost f: Family, ghost n: nat, ghost i: nat)
    returns (ghost f': Family)
    requires Good(f) && |f.lists| == |f.chains| == n + newBucketCnt && i < n && IsPow2(newBucketCnt)
    requires HoldsFrom(newBuckets, f.lists, n) && f.lists[i] == from
    requires forall j :: 0 <= j < i ==> f.chains[j] == []
    modifies f.heads, f.repr
    ensures Good(f') && f'.lists == f.lists && f'.heads == f.heads && f'.repr == f.repr && |f'.chains| == |f.chains|
    ensures forall j :: 0 <= j <= i ==> f'.chains[j] == []
    ensures Moving(env, f'.chains, n) == Moving(env, f.chains, n)
  {
    hide Good, ListOk, Listed, IsPow2, And, Moving, AfterMove, HoldsFrom, List.Valid;
    f' := f;
    ListAt(f, i);
    var elem := from.Begin();
    assert elem == (f.chains[i] + [from.tail])[0];
    while elem != from.tail
      invariant Good(f') && f'.lists == f.lists && f'.heads == f.heads && f'.repr == f.repr && |f'.chains| == |f.chains|
      invariant Moving(env, f'.chains, n) == Moving(env, f.chains, n)
      invariant forall j :: 0 <= j < i ==> f'.chains[j] == []
      invariant elem == (f'.chains[i] + [from.tail])[0]
      decreases |f'.chains[i]|
    {
      MoveStep(env, f'.chains, n, i);
      elem, f' := MoveFirst(env, elem, from, newBuckets, newBucketCnt, f', n, i);
    }
    NoneLeft(f', i);
  }

  lemma NoneLeft(f: Family, i: nat)
    requires Good(f) && i < |f.lists| && (f.chains[i] + [f.lists[i].tail])[0] == f.lists[i].tail
    ensures f.chains[i] == []
  {
    ListAt(f, i);
    TailIsNoElement(f.lists[i]);
  }

  lemma TailIsNoElement(list: List)
    requires list.Valid() && (list.elems + [list.tail])[0] == list.tail
    ensures list.elems == []
  {
    assert list.Nodes()[1] == (list.elems + [list.tail])[0];
    SamePlace(list.Nodes(), 1, |list.elems| + 1);
  }

  /** The loops of `rehash` that move every element to its new bucket. */
  method MoveAll(env: Env, oldBuckets: array<List>, oldBucketCnt: nat, newBuckets: array<List>, newBucketCnt: nat,
                 ghost f: Family)
    returns (ghost f': Family)
    requires Good(f) && |f.lists| == |f.chains| == oldBucketCnt + newBucketCnt && IsPow2(newBucketCnt)
    requires HoldsFrom(oldBuckets, f.lists[..oldBucketCnt], 0) && HoldsFrom(newBuckets, f.lists, oldBucketCnt)
    modifies f.heads, f.repr
    ensures Good(f') && f'.lists == f.lists && f'.heads == f.heads && f'.repr == f.repr && |f'.chains| == |f.chains|
    ensures forall j :: 0 <= j < oldBucketCnt ==> f'.chains[j] == []
    ensures Moving(env, f'.chains, oldBucketCnt) == Moving(env, f.chains, oldBucketCnt)
  {
    hide Good, Moving, IsPow2, HoldsFrom;
    f' := f;
    for i := 0 to oldBucketCnt
      invariant Good(f') && f'.lists == f.lists && f'.heads == f.heads && f'.repr == f.repr && |f'.chains| == |f.chains|
      invariant Moving(env, f'.chains, oldBucketCnt) == Moving(env, f.chains, oldBucketCnt)
      invariant forall j :: 0 <= j < i ==> f'.chains[j] == []
    {
      var from := At(oldBuckets, i, f.lists[..oldBucketCnt], 0);
      f' := MoveList(env, from, newBuckets, newBucketCnt, f', oldBucketCnt, i);
    }
  }

  lemma MovingStarts(env: Env, a: Chains, b: Chains)
    requires IsPow2(|b|)
    ensures Moving(env, a + b, |a|) == Distribute(env, Flat(a), b)
  {
    assert (a + b)[..|a|] == a && (a + b)[|a|..] == b;
  }

  lemma MovingDone(env: Env, c: Chains, n: nat)
    requires n <= |c| && IsPow2(|c| - n) && forall j :: 0 <= j < n ==> c[j] == []
    ensures Moving(env, c, n) == c[n..]
  {
    NoneInEmpty(c[..n]);
  }

  /** The rest of `rehash`, once it has decided on the new bucket count. */
  method Redistribute(env: Env, oldBuckets: array<List>, oldBucketCnt: nat, newBucketCnt: nat, ghost f: Family)
    returns (newBuckets: array<List>, ghost f': Family)
    requires Good(f) && |f.lists| == |f.chains| == oldBucketCnt && HoldsFrom(oldBuckets, f.lists, 0)
    requires newBucketCnt > 0 && IsPow2(newBucketCnt)
    modifies f.heads, f.repr
    ensures |f'.lists| == newBucketCnt && HoldsFrom(newBuckets, f'.lists, 0)
    ensures fresh(newBuckets) && fresh(f'.heads - f.heads) && fresh(f'.repr - f.repr)
    ensures Good(f') && f'.chains == Distribute(env, Flat(f.chains), Empty(newBucketCnt))
  {
    hide HoldsFrom;
    hide ListOk, AllApart, Good, IsPow2, Moving, Distribute, Flat;
    newBuckets, f' := NewBuckets(newBucketCnt);
    BothGood(f, f');
    MovingStarts(env, f.chains, Empty(newBucketCnt));
    ghost var g := Both(f, f');
    assert g.lists[..oldBucketCnt] == f.lists && g.lists[oldBucketCnt..] == f'.lists;
    HoldsLater(newBuckets, f'.lists, g.lists, oldBucketCnt);
    g := MoveAll(env, oldBuckets, oldBucketCnt, newBuckets, newBucketCnt, g);
    MovingDone(env, g.chains, oldBucketCnt);
    LatterGood(g, oldBucketCnt);
    assert g.lists[oldBucketCnt..] == f'.lists;
    f' := Latter(g, oldBucketCnt);
  }

  /** `list_front`. */
  method Front(list: List) returns (e: Elem)
    requires list.Valid() && list.elems != []
    ensures e == list.elems[0]
  {
    e := list.Begin();
  }

  lemma NothingYet(c: Chains, destructor: Option<(Item, Aux) -> Aux>, aux: Aux)
    ensures Flat(c[..0]) == [] && Destroyed(destructor, [], aux) == aux
  {
  }

  lemma ClearKeepsShape(t: Table)
    requires Shape(t)
    ensures Shape(HashTheory.Clear(t))
  {
  }

  ghost function Destroyed(destructor: Option<(Item, Aux) -> Aux>, s: seq<Elem>, aux: Aux): Aux {
    if destructor.None? then aux else Fold(destructor.value, s, aux)
  }

  lemma {:induction false} FoldConcat(action: (Item, Aux) -> Aux, s: seq<Elem>, t: seq<Elem>, aux: Aux)
    ensures Fold(action, s + t, aux) == Fold(action, t, Fold(action, s, aux))
  {
    if s == [] {
      assert s + t == t;
    } else {
      assert (s + t)[1..] == s[1..] + t;
      FoldConcat(action, s[1..], t, action(s[0].item, aux));
    }
  }

  lemma FoldNone(action: (Item, Aux) -> Aux, aux: Aux)
    ensures Fold(action, [], aux) == aux
  {
  }

  lemma FoldOneMore(action: (Item, Aux) -> Aux, s: seq<Elem>, e: Elem, aux: Aux)
    ensures Fold(action, s + [e], aux) == action(e.item, Fold(action, s, aux))
  {
    FoldConcat(action, s, [e], aux);
    assert [e][1..] == [];
  }

  lemma DestroyedConcat(destructor: Option<(Item, Aux) -> Aux>, s: seq<Elem>, t: seq<Elem>, aux: Aux)
    ensures Destroyed(destructor, s + t, aux) == Destroyed(destructor, t, Destroyed(destructor, s, aux))
  {
    if destructor.Some? {
      FoldConcat(destructor.value, s, t, aux);
    }
  }

  lemma {:induction false} FlatConcat(c: Chains, d: Chains)
    ensures Flat(c + d) == Flat(c) + Flat(d)
  {
    if c == [] {
      assert c + d == d;
    } else {
      assert (c + d)[1..] == c[1..] + d;
      FlatConcat(c[1..], d);
    }
  }

  lemma FlatOneMore(c: Chains, i: nat)
    requires i < |c|
    ensures Flat(c[..i + 1]) == Flat(c[..i]) + c[i]
  {
    assert c[..i + 1] == c[..i] + [c[i]];
    FlatConcat(c[..i], [c[i]]);
    assert Flat([c[i]]) == c[i];
  }

  /** Where an element of a chain stands among all elements. */
  lemma FlatAt(c: Chains, i: nat, p: nat)
    requires i < |c| && p < |c[i]|
    ensures |Flat(c[..i])| + p < |Flat(c)| && Flat(c)[|Flat(c[..i])| + p] == c[i][p]
  {
    FlatOneMore(c, i);
    FlatConcat(c[..i + 1], c[i + 1..]);
    assert c[..i + 1] + c[i + 1..] == c;
  }

  function Opt(e: Elem?): Option<Elem> {
    if e == null then None else var x: Elem := e; Some(x)
  }

  lemma TakeFirst(done: seq<Elem>, rest: seq<Elem>)
    requires rest != []
    ensures (done + [rest[0]]) + Without(rest, 0) == done + rest
  {
  }

  /** The inner loop of `hash_clear`: every element of one bucket is removed and given to the destructor. */
  method PopAll(bucket: List, destructor: (Item, Aux) -> Aux, aux: Aux, ghost f: Family, ghost k: nat)
    returns (ghost f': Family, aux': Aux)
    requires Good(f) && k < |f.lists| && f.lists[k] == bucket
    modifies f.heads, f.repr
    ensures Good(f') && f'.lists == f.lists && f'.heads == f.heads && f'.repr <= f.repr
    ensures k < |f.chains| && f'.chains == f.chains[k := []]
    ensures forall e :: e in f.chains[k] ==> e !in f'.repr
    ensures aux' == Fold(destructor, f.chains[k], aux)
  {
    hide Good, ListOk, List.Valid, Pulled, Without, Fold;
    ListAt(f, k);
    ghost var c, done := f.chains, [];
    FoldNone(destructor, aux);
    f', aux' := f, aux;
    var empty := bucket.IsEmpty();
    while !empty
      invariant Good(f') && f'.lists == f.lists && f'.heads == f.heads && f'.repr <= f.repr
      invariant |f'.chains| == |c| && f'.chains == c[k := f'.chains[k]] && done + f'.chains[k] == c[k]
      invariant forall e :: e in done ==> e !in f'.repr
      invariant aux' == Fold(destructor, done, aux) && empty == (f'.chains[k] == [])
      decreases |f'.chains[k]|
    {
      ghost var rest := f'.chains[k];
      ListAt(f', k);
      var e := Front(bucket);
      f' := RemoveFrom(e, f', k, 0);
      TakeFirst(done, rest);
      FoldOneMore(destructor, done, e, aux);
      aux' := destructor(e.item, aux');
      done := done + [e];
      ListAt(f', k);
      empty := bucket.IsEmpty();
    }
    assert done == c[k];
  }

  /** How many elements come before place `p` of bucket `i`, when the head of the bucket is place 0, plus one. */
  ghost function Rank(c: Chains, i: nat, p: nat): nat
    requires i <= |c|
  {
    |Flat(c[..i])| + p
  }

  /** The first element of a bucket, or its tail. */
  method FirstOfBucket(buckets: array<List>, bucket: nat, ghost f: Family) returns (list: List, e: Elem)
    requires Good(f) && |f.lists| == |f.chains| && HoldsFrom(buckets, f.lists, 0) && bucket < |f.lists|
    ensures list == f.lists[bucket] && list.Valid() && list.elems == f.chains[bucket] && e == list.Nodes()[1]
  {
    hide Good, HoldsFrom, ListOk, Listed;
    list := At(buckets, bucket, f.lists, 0);
    ListAt(f, bucket);
    e := list.Begin();
  }

  /** The place after the last element of a bucket is as far as the first one of the next bucket, or past the end. */
  lemma RankGoesOn(c: Chains, i: nat)
    requires i < |c|
    ensures Rank(c, i + 1, 1) == Rank(c, i, |c[i]| + 1)
    ensures i + 1 == |c| ==> Rank(c, i, |c[i]| + 1) == |Flat(c)| + 1
  {
    hide Flat;
    FlatOneMore(c, i);
    assert i + 1 == |c| ==> c[..i + 1] == c;
  }

  lemma RankOfNext(c: Chains, i: nat, p: nat)
    requires i < |c|
    ensures Rank(c, i, p + 1) == Rank(c, i, p) + 1
  {
  }

  /** The loop of `hash_next`, which reads the table only. */
  method NextFrom(buckets: array<List>, bucketCnt: nat, bucket: nat, elem: Elem, ghost f: Family, ghost place: nat)
    returns (bucket': nat, r: Elem?, ghost place': nat)
    requires Good(f) && |f.lists| == |f.chains| == bucketCnt && HoldsFrom(buckets, f.lists, 0)
    requires bucket < bucketCnt && place <= |f.chains[bucket]| && elem == f.lists[bucket].Nodes()[place]
    ensures if r == null then bucket' == bucketCnt && Rank(f.chains, bucket, place) == |Flat(f.chains)| else
            && bucket' < bucketCnt && 0 < place' <= |f.chains[bucket']| && r == f.lists[bucket'].Nodes()[place']
            && r == f.chains[bucket'][place' - 1]
            && Rank(f.chains, bucket', place') == Rank(f.chains, bucket, place) + 1
  {
    hide Good, HoldsFrom, ListOk, Flat, Rank, Listed;
    ghost var c := f.chains;
    var list := At(buckets, bucket, f.lists, 0);
    RankOfNext(c, bucket, place);
    ListAt(f, bucket);
    bucket', place' := bucket, place + 1;
    var e := Next(elem, list.Nodes(), place);
    while e == list.tail
      invariant bucket' < bucketCnt && list == f.lists[bucket'] && list.Valid() && list.elems == c[bucket']
      invariant 1 <= place' <= |c[bucket']| + 1 && e == list.Nodes()[place']
      invariant Rank(c, bucket', place') == Rank(c, bucket, place) + 1
      decreases bucketCnt - bucket'
    {
      SamePlace(list.Nodes(), place', |c[bucket']| + 1);
      RankGoesOn(c, bucket');
      bucket', place' := bucket' + 1, 1;
      if bucket' >= bucketCnt {
        return bucketCnt, null, place';
      }
      list, e := FirstOfBucket(buckets, bucket', f);
    }
    r := e;
  }

  /** `struct hash`. The field `aux` is what the callbacks see of the elements. */
  class HashTable {
    var elemCnt: nat
    var bucketCnt: nat
    var buckets: array<List>
    const hash: (Item, Aux) -> nat
    const less: (Item, Item, Aux) -> bool
    var aux: Aux
    ghost var f: Family

    function TheEnv(): Env
      reads this
    {
      Env(hash, less, aux)
    }

    /** The chains of the table and its element count, which say all there is to say about it. */
    ghost function Abs(): Table
      reads this
    {
      Table(f.chains, elemCnt)
    }

    ghost predicate Valid()
      reads this, buckets, f.heads, f.repr
    {
      && |f.lists| == |f.chains| == bucketCnt && HoldsFrom(buckets, f.lists, 0)
      && Good(f)
      && Shape(Abs())
    }

    /** `hash_init`, when the allocation succeeds. */
    constructor (hash: (Item, Aux) -> nat, less: (Item, Item, Aux) -> bool, aux: Aux)
      ensures Valid() && TheEnv() == Env(hash, less, aux) && Abs() == Table(Empty(4), 0)
      ensures fresh(buckets) && fresh(f.heads) && fresh(f.repr)
    {
      this.hash, this.less, this.aux := hash, less, aux;
      var newBuckets;
      ghost var newFamily;
      newBuckets, newFamily := NewBuckets(4);
      elemCnt, bucketCnt, buckets, f := 0, 4, newBuckets, newFamily;
      new;
      assert IsPow2(4);
    }

    /** `find_bucket`. */
    method FindBucket(a: Item) returns (bucket: List, ghost k: nat)
      requires Valid()
      ensures k == TheEnv().Bucket(a, bucketCnt) < bucketCnt && bucket == f.lists[k]
      ensures bucket.Valid() && bucket.elems == f.chains[k] && |f.own| == bucketCnt
    {
      BucketInRange(TheEnv(), a, bucketCnt);
      var idx := And(hash(a, aux), bucketCnt - 1);
      ListAt(f, idx);
      k := idx;
      bucket := At(buckets, idx, f.lists, 0);
    }

    /** `rehash`, when it does change the bucket count. */
    method ChangeBucketCnt(n: nat)
      requires Valid() && n > 0 && IsPow2(n)
      requires Shape(Table(Distribute(TheEnv(), Flat(f.chains), Empty(n)), elemCnt))
      modifies this, f.heads, f.repr
      ensures Valid() && TheEnv() == old(TheEnv()) && elemCnt == old(elemCnt)
      ensures f.chains == Distribute(TheEnv(), Flat(old(f.chains)), Empty(n))
      ensures fresh(f.repr - old(f.repr)) && fresh(f.heads - old(f.heads))
    {
      hide Good, ListOk, IsPow2, Distribute, All, Flat, Shape, HoldsFrom;
      buckets, f := Redistribute(TheEnv(), buckets, bucketCnt, n, f);
      bucketCnt := n;
    }

    /** `rehash`. The parameter says whether the allocation succeeds. */
    method Rehash(alloc: bool)
      requires Valid()
      modifies this, f.heads, f.repr
      ensures Valid() && TheEnv() == old(TheEnv())
      ensures Abs() == HashTheory.Rehash(TheEnv(), old(Abs()), alloc)
      ensures fresh(f.repr - old(f.repr)) && fresh(f.heads - old(f.heads))
    {
      hide Good, ListOk, IsPow2, Distribute, All, Flat, Shape, HoldsFrom;
      RehashKeepsAll(TheEnv(), Abs(), alloc);
      var newBucketCnt := NewBucketCnt(elemCnt);
      if newBucketCnt != bucketCnt && alloc {
        ChangeBucketCnt(newBucketCnt);
      }
    }

    lemma HasShape()
      requires Valid()
      ensures Shape(Abs()) && IsPow2(bucketCnt) && |f.chains| == bucketCnt
    {
    }

    /** `find_elem` in the bucket that `find_bucket` returns. */
    method Locate(a: Item) returns (bucket: List, r: Elem?, ghost k: nat, ghost p: nat)
      requires Valid()
      ensures |f.own| == |f.chains| && k == TheEnv().Bucket(a, bucketCnt) < bucketCnt && bucket == f.lists[k]
      ensures p == PlaceIn(TheEnv(), f.chains[k], a)
      ensures r == if p < |f.chains[k]| then f.chains[k][p] else null
      ensures Opt(r) == HashTheory.Find(TheEnv(), Abs(), a)
    {
      bucket, k := FindBucket(a);
      r, p := FindElem(bucket, TheEnv(), a);
    }

    /** `insert_elem`. */
    method InsertElem(bucket: List, e: Elem, ghost k: nat)
      requires Valid() && |f.own| == bucketCnt
      requires k == TheEnv().Bucket(e.item, bucketCnt) < bucketCnt && bucket == f.lists[k] && e !in f.repr
      modifies this`elemCnt, this`f, f.heads, f.repr, e
      ensures Valid() && Abs() == HashTheory.InsertElem(TheEnv(), old(Abs()), e)
      ensures f.lists == old(f.lists) && f.heads == old(f.heads) && f.repr == old(f.repr) + {e} && |f.own| == bucketCnt
    {
      hide Good, ListOk, IsPow2, All, Shape, HoldsFrom, Pushed;
      ListAt(f, k);
      InsertElemAddsOne(TheEnv(), Abs(), e);
      elemCnt := elemCnt + 1;
      f := PushTo(bucket, e, f, k);
      ListAt(f, k);
    }

    /** `remove_elem`, on the element that was found for `a`. */
    method RemoveElem(e: Elem, ghost a: Item, ghost k: nat, ghost p: nat)
      requires Valid() && k == TheEnv().Bucket(a, bucketCnt) < bucketCnt
      requires p == PlaceIn(TheEnv(), f.chains[k], a) < |f.chains[k]| && f.chains[k][p] == e
      modifies this`elemCnt, this`f, f.heads, f.repr
      ensures HashTheory.Find(TheEnv(), old(Abs()), a) == Some(e)
      ensures Valid() && Abs() == HashTheory.RemoveElem(TheEnv(), old(Abs()), a)
      ensures f.lists == old(f.lists) && f.heads == old(f.heads) && f.repr == old(f.repr) - {e} && |f.own| == bucketCnt
    {
      hide Good, ListOk, IsPow2, All, Shape, HoldsFrom, Pulled;
      ListAt(f, k);
      RemoveElemTakesOne(TheEnv(), Abs(), a);
      FoundIsCounted(TheEnv(), Abs(), a);
      elemCnt := elemCnt - 1;
      f := RemoveFrom(e, f, k, p);
      ListAt(f, k);
    }

    /** `hash_find`. */
    method Find(a: Item) returns (r: Elem?)
      requires Valid()
      ensures Opt(r) == HashTheory.Find(TheEnv(), Abs(), a)
    {
      var bucket;
      ghost var k, p;
      bucket, r, k, p := Locate(a);
    }

    /** `hash_insert`. Only an element that is not in the table may go into it. */
    method Insert(e: Elem, alloc: bool) returns (r: Elem?)
      requires Valid() && (e in f.repr ==> HashTheory.Find(TheEnv(), Abs(), e.item).Some?)
      modifies this, f.heads, f.repr, e
      ensures Valid() && TheEnv() == old(TheEnv())
      ensures Abs() == HashTheory.Insert(TheEnv(), old(Abs()), e, alloc)
      ensures Opt(r) == HashTheory.Find(TheEnv(), old(Abs()), e.item)
      ensures r != null ==> fresh(f.repr - old(f.repr))
      ensures fresh(f.repr - old(f.repr) - {e}) && fresh(f.heads - old(f.heads))
    {
      hide HashTable.Valid, Shape, IsPow2, PlaceIn;
      hide HashTheory.Find, HashTheory.InsertElem, HashTheory.RemoveElem, HashTheory.Rehash;
      HasShape();
      var bucket;
      ghost var k, p;
      bucket, r, k, p := Locate(e.item);
      if r == null {
        InsertAndRehash(bucket, e, k, alloc);
      } else {
        Rehash(alloc);
      }
    }

    /** `insert_elem` and then `rehash`. */
    method InsertAndRehash(bucket: List, e: Elem, ghost k: nat, alloc: bool)
      requires Valid() && |f.own| == bucketCnt
      requires k == TheEnv().Bucket(e.item, bucketCnt) < bucketCnt && bucket == f.lists[k] && e !in f.repr
      modifies this, f.heads, f.repr, e
      ensures Valid() && TheEnv() == old(TheEnv())
      ensures Abs() == HashTheory.Rehash(TheEnv(), HashTheory.InsertElem(TheEnv(), old(Abs()), e), alloc)
      ensures fresh(f.repr - old(f.repr) - {e}) && fresh(f.heads - old(f.heads))
    {
      hide HashTable.Valid, Shape, IsPow2, PlaceIn, HashTheory.Find, HashTheory.InsertElem, HashTheory.Rehash;
      HasShape();
      InsertElem(bucket, e, k);
      Rehash(alloc);
    }

    /** `hash_replace`. */
    method Replace(e: Elem, alloc: bool) returns (r: Elem?)
      requires Valid() && (e in f.repr ==> HashTheory.Find(TheEnv(), Abs(), e.item) == Some(e))
      modifies this, f.heads, f.repr, e
      ensures Valid() && TheEnv() == old(TheEnv())
      ensures Abs() == HashTheory.Replace(TheEnv(), old(Abs()), e, alloc)
      ensures Opt(r) == HashTheory.Find(TheEnv(), old(Abs()), e.item)
      ensures r != null && r != e ==> r !in f.repr
      ensures fresh(f.repr - old(f.repr) - {e}) && fresh(f.heads - old(f.heads))
    {
      hide HashTable.Valid, Shape, IsPow2, PlaceIn;
      hide HashTheory.Find, HashTheory.InsertElem, HashTheory.RemoveElem, HashTheory.Rehash;
      HasShape();
      var bucket;
      ghost var k, p;
      bucket, r, k, p := Locate(e.item);
      if r != null {
        RemoveElem(r, e.item, k, p);
      }
      assert Abs() == RemoveIfFound(TheEnv(), old(Abs()), e.item);
      InsertAndRehash(bucket, e, k, alloc);
    }

    /** `hash_delete`. */
    method Delete(a: Item, alloc: bool) returns (r: Elem?)
      requires Valid()
      modifies this, f.heads, f.repr
      ensures Valid() && TheEnv() == old(TheEnv())
      ensures Abs() == HashTheory.Delete(TheEnv(), old(Abs()), a, alloc)
      ensures Opt(r) == HashTheory.Find(TheEnv(), old(Abs()), a)
      ensures r != null ==> r !in f.repr
      ensures fresh(f.repr - old(f.repr)) && fresh(f.heads - old(f.heads))
    {
      hide HashTable.Valid, Shape, IsPow2, PlaceIn;
      hide HashTheory.Find, HashTheory.InsertElem, HashTheory.RemoveElem, HashTheory.Rehash;
      HasShape();
      var bucket;
      ghost var k, p;
      bucket, r, k, p := Locate(a);
      if r != null {
        RemoveElem(r, a, k, p);
        Rehash(alloc);
      }
    }

    /** `hash_size`. */
    method Size() returns (n: nat)
      requires Valid()
      ensures n == |All(f.chains)|
    {
      n := elemCnt;
    }

    /** `hash_clear` in one bucket. */
    method ClearBucket(bucket: List, destructor: Option<(Item, Aux) -> Aux>, ghost k: nat)
      requires Good(f) && k < |f.lists| && f.lists[k] == bucket
      modifies this`f, this`aux, f.heads, f.repr
      ensures Good(f) && f.lists == old(f.lists) && f.heads == old(f.heads) && f.repr <= old(f.repr)
      ensures k < |old(f.chains)| && f.chains == old(f.chains)[k := []]
      ensures forall e :: e in old(f.chains)[k] ==> e !in f.repr
      ensures aux == Destroyed(destructor, old(f.chains)[k], old(aux))
    {
      hide Good, ListOk, List.Valid, Emptied;
      ListAt(f, k);
      if destructor.Some? {
        f, aux := PopAll(bucket, destructor.value, aux, f, k);
        ListAt(f, k);
      }
      f := InitOne(bucket, f, k);
    }

    /** `hash_clear`. */
    method Clear(destructor: Option<(Item, Aux) -> Aux>)
      requires Valid()
      modifies this`f, this`elemCnt, this`aux, f.heads, f.repr
      ensures Valid() && Abs() == HashTheory.Clear(old(Abs()))
      ensures aux == Destroyed(destructor, Flat(old(f.chains)), old(aux))
      ensures f.heads == old(f.heads) && f.repr <= old(f.repr) && forall e :: e in Flat(old(f.chains)) ==> e !in f.repr
      ensures elemCnt == 0 && bucketCnt == old(bucketCnt) && |f.chains| == |old(f.chains)|
      ensures forall b :: 0 <= b < |f.chains| ==> f.chains[b] == []
    {
      hide Good, Shape, HoldsFrom, Flat, Destroyed, Fold, All;
      ghost var c := f.chains;
      NothingYet(c, destructor, aux);
      HasShape();
      ClearKeepsShape(Abs());
      for i := 0 to bucketCnt
        invariant Good(f) && f.lists == old(f.lists) && f.heads == old(f.heads) && f.repr <= old(f.repr)
        invariant |f.chains| == |c| && forall j :: 0 <= j < |c| ==> f.chains[j] == if j < i then [] else c[j]
        invariant forall e :: e in Flat(c[..i]) ==> e !in f.repr
        invariant aux == Destroyed(destructor, Flat(c[..i]), old(aux))
      {
        var bucket := At(buckets, i, f.lists, 0);
        ClearBucket(bucket, destructor, i);
        FlatOneMore(c, i);
        DestroyedConcat(destructor, Flat(c[..i]), c[i], old(aux));
      }
      assert c[..bucketCnt] == c;
      elemCnt := 0;
      assert f.chains == Empty(|c|);
    }

    /** `hash_apply` in one bucket. */
    method ApplyTo(bucket: List, action: (Item, Aux) -> Aux)
      requires bucket.Valid()
      modifies this`aux
      ensures aux == Fold(action, bucket.elems, old(aux))
    {
      ghost var s, p := bucket.Nodes(), 0;
      var elem := bucket.Begin();
      assert bucket.elems[..0] == [];
      while elem != bucket.tail
        invariant p <= |bucket.elems| && elem == s[p + 1]
        invariant aux == Fold(action, bucket.elems[..p], old(aux))
        decreases |bucket.elems| - p
      {
        FoldOneMore(action, bucket.elems[..p], elem, old(aux));
        assert bucket.elems[..p + 1] == bucket.elems[..p] + [elem];
        var next := Next(elem, s, p + 1);
        aux := action(elem.item, aux);
        elem := next;
        p := p + 1;
      }
      SamePlace(s, p + 1, |s| - 1);
      assert bucket.elems[..p] == bucket.elems;
    }

    /** `hash_apply`. */
    method Apply(action: (Item, Aux) -> Aux)
      requires Valid()
      modifies this`aux
      ensures Valid() && Abs() == old(Abs())
      ensures aux == Fold(action, Flat(f.chains), old(aux))
    {
      hide Good, Shape;
      assert Flat(f.chains[..0]) == [];
      for i := 0 to bucketCnt
        invariant aux == Fold(action, Flat(f.chains[..i]), old(aux))
      {
        var bucket := At(buckets, i, f.lists, 0);
        ListAt(f, i);
        ApplyTo(bucket, action);
        FlatOneMore(f.chains, i);
        FoldConcat(action, Flat(f.chains[..i]), f.chains[i], old(aux));
      }
      assert f.chains[..bucketCnt] == f.chains;
    }
  }

  /** `struct hash_iterator`; the pointer to a bucket is an index here. */
  class HashIterator {
    const hash: HashTable
    var bucket: nat
    var elem: Elem?
    ghost var place: nat

    /** How many elements the iterator has returned. */
    ghost function Visited(): nat
      reads this, hash
    {
      if elem != null && bucket < |hash.f.chains| then Rank(hash.f.chains, bucket, place) else |Flat(hash.f.chains)|
    }

    /** The iterator stands at the head of its bucket or at an element of it, or is done. */
    ghost predicate Valid()
      reads this, hash, hash.buckets, hash.f.heads, hash.f.repr
    {
      && hash.Valid()
      && (elem != null ==> bucket < hash.bucketCnt && place <= |hash.f.chains[bucket]|
                           && elem == hash.f.lists[bucket].Nodes()[place])
    }

    /** `hash_first`. */
    constructor (hash: HashTable)
      requires hash.Valid()
      ensures Valid() && this.hash == hash && Visited() == 0 && elem != null
    {
      this.hash := hash;
      bucket, place := 0, 0;
      var first := At(hash.buckets, 0, hash.f.lists, 0);
      elem := first.head;
      new;
      assert Flat(hash.f.chains[..0]) == [];
    }

    /** `hash_next`: the next element in the order of the chains, and null at the end. */
    method Advance() returns (r: Elem?)
      requires Valid() && elem != null
      modifies this
      ensures Valid() && r == elem
      ensures var all := Flat(hash.f.chains);
              if old(Visited()) < |all| then r == all[old(Visited())] && Visited() == old(Visited()) + 1
              else r == null && Visited() == |all|
    {
      hide Good, HoldsFrom, Shape, Flat;
      ghost var c := hash.f.chains;
      bucket, elem, place := NextFrom(hash.buckets, hash.bucketCnt, bucket, elem, hash.f, place);
      r := elem;
      if r != null {
        FlatAt(c, bucket, place - 1);
      }
    }
  }

  /** The iteration idiom: it meets every element of the table exactly once, in the order of the chains. */
  method Iterate(hash: HashTable) returns (seen: seq<Elem>)
    requires hash.Valid()
    ensures seen == Flat(hash.f.chains) && multiset(seen) == All(hash.f.chains)
  {
    hide HashTable.Valid, HashIterator.Valid, HashIterator.Visited, Flat, All;
    FlatIsAll(hash.f.chains);
    ghost var all := Flat(hash.f.chains);
    var i := new HashIterator(hash);
    seen := [];
    var e := i.Advance();
    while e != null
      invariant i.hash == hash && i.Valid() && e == i.elem && fresh(i)
      invariant seen <= all
      invariant if e == null then |seen| == |all| else |seen| < |all| && i.Visited() == |seen| + 1 && e == all[|seen|]
      decreases |all| - |seen|
    {
      seen := seen + [e];
      e := i.Advance();
    }
  }
}
