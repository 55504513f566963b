/** The doubly linked lists of `list.c`: two header elements, `prev`/`next` links that are
    mutually inverse, and operations that only rewrite those links. */
module Lists {
  import opened Elements

  /** Every element's links lead to its neighbours. */
  ghost predicate Linked(s: seq<Elem>)
    reads s
  {
    && (forall i, j :: 0 <= i < j < |s| ==> s[i] != s[j])
    && (forall i {:trigger s[i].next} :: 0 <= i < |s| - 1 ==> s[i].next == s[i + 1])
    && (forall i {:trigger s[i].prev} :: 1 <= i < |s| ==> s[i].prev == s[i - 1])
  }

  /** All the elements of one list from its head to its tail, both included. */
  ghost predicate Listed(s: seq<Elem>)
    reads s
  {
    && |s| >= 2
    && Linked(s)
    && s[0].prev == null
    && s[|s| - 1].next == null
  }

  ghost predicate Apart(s: seq<Elem>, t: seq<Elem>) {
    forall i, j :: 0 <= i < |s| && 0 <= j < |t| ==> s[i] != t[j]
  }

  ghost predicate Within(s: seq<Elem>, own: set<Elem>) {
    forall i :: 0 <= i < |s| ==> s[i] in own
  }

  predicate IsHead(e: Elem)
    reads e
  {
    e.prev == null && e.next != null
  }

  predicate IsInterior(e: Elem)
    reads e
  {
    e.prev != null && e.next != null
  }

  predicate IsTail(e: Elem)
    reads e
  {
    e.prev != null && e.next == null
  }

  // ---------- Sequence operations ----------

  ghost function Moved<T>(s: seq<T>, k: nat, i: nat, j: nat): seq<T>
    requires i <= j <= |s| && k <= |s| && (i == j || k <= i || j <= k)
  {
    if i == j then s
    else if k <= i then s[..k] + s[i..j] + s[k..i] + s[j..]
    else s[..i] + s[j..k] + s[i..j] + s[k..]
  }

  ghost function Reversed<T>(s: seq<T>): seq<T> {
    seq(|s|, i requires 0 <= i < |s| => s[|s| - 1 - i])
  }

  ghost function Swapped<T>(s: seq<T>, i: nat, j: nat): seq<T>
    requires i < |s| && j < |s|
  {
    s[i := s[j]][j := s[i]]
  }

  // ---------- Link surgery ----------

  /** The links of an element inside a list. */
  lemma LinksAt(s: seq<Elem>, k: nat)
    requires Listed(s) && k < |s|
    ensures k > 0 ==> s[k].prev == s[k - 1]
    ensures k < |s| - 1 ==> s[k].next == s[k + 1]
  {
    if k > 0 {
      assert s[k].prev == s[k - 1];
    }
    if k < |s| - 1 {
      assert s[k].next == s[k + 1];
    }
  }

  /** What the assertions of the code ask for: the first element of a list is a head, the last one a tail, and the
      others are interior, each of them that only. */
  lemma KindsOfElements(s: seq<Elem>, k: nat)
    requires Listed(s) && k < |s|
    ensures IsHead(s[k]) <==> k == 0
    ensures IsTail(s[k]) <==> k == |s| - 1
    ensures IsInterior(s[k]) <==> 0 < k < |s| - 1
  {
    LinksAt(s, k);
  }

  lemma SamePlace(s: seq<Elem>, i: nat, j: nat)
    requires Listed(s) && i < |s| && j < |s| && s[i] == s[j]
    ensures i == j
  {
  }

  /** `list_next`, on an element of the list `s`. */
  method Next(e: Elem, ghost s: seq<Elem>, ghost i: nat) returns (n: Elem)
    requires Listed(s) && i < |s| - 1 && s[i] == e
    ensures n == s[i + 1]
  {
    assert s[i].next == s[i + 1];
    assert i > 0 ==> s[i].prev == s[i - 1];
    assert IsHead(e) || IsInterior(e);
    n := e.next;
  }

  /** `list_prev`, on an element of the list `s`. */
  method Prev(e: Elem, ghost s: seq<Elem>, ghost i: nat) returns (n: Elem)
    requires Listed(s) && 0 < i < |s| && s[i] == e
    ensures n == s[i - 1]
  {
    assert s[i].prev == s[i - 1];
    assert i < |s| - 1 ==> s[i].next == s[i + 1];
    assert IsInterior(e) || IsTail(e);
    n := e.prev;
  }

  /** `list_insert`: `elem`, which is in no list, goes just before `before`. */
  method Insert(before: Elem, elem: Elem, ghost s: seq<Elem>, ghost k: nat)
    requires Listed(s) && 0 < k < |s| && s[k] == before && elem !in s
    modifies s[k - 1], before, elem
    ensures Listed(s[..k] + [elem] + s[k..])
  {
    assert before.prev == s[k - 1];
    assert k < |s| - 1 ==> s[k].next == s[k + 1];
    assert IsInterior(before) || IsTail(before);
    elem.prev := before.prev;
    elem.next := before;
    before.prev.next := elem;
    before.prev := elem;
  }

  /** `list_remove`: the removed element keeps its own links. */
  method Remove(elem: Elem, ghost s: seq<Elem>, ghost k: nat) returns (n: Elem)
    requires Listed(s) && 0 < k < |s| - 1 && s[k] == elem
    modifies s[k - 1], s[k + 1]
    ensures Listed(s[..k] + s[k + 1..])
    ensures n == s[k + 1]
    ensures elem.prev == s[k - 1] && elem.next == s[k + 1]
  {
    assert elem.prev == s[k - 1] && elem.next == s[k + 1];
    elem.prev.next := elem.next;
    elem.next.prev := elem.prev;
    n := elem.next;
  }

  /** The first half of `list_splice`: `first` to `last` leave their list together. */
  method CutOut(first: Elem, last: Elem, ghost s: seq<Elem>, ghost i: nat, ghost j: nat)
    requires Listed(s) && 0 < i < j < |s| && s[i] == first && s[j - 1] == last
    modifies s[i - 1], s[j]
    ensures Listed(s[..i] + s[j..])
    ensures Linked(s[i..j])
  {
    assert first.prev == s[i - 1] && first.next == s[i + 1];
    assert last.prev == s[j - 2] && last.next == s[j];
    assert IsInterior(first) && IsInterior(last);
    first.prev.next := last.next;
    last.next.prev := first.prev;
    CutIsListed(s, i, j);
  }

  /** The links of a list in which the neighbours of a range lead to each other. */
  lemma CutIsListed(s: seq<Elem>, i: nat, j: nat)
    requires 0 < i < j < |s|
    requires forall m, n :: 0 <= m < n < |s| ==> s[m] != s[n]
    requires forall m {:trigger s[m].next} :: 0 <= m < |s| - 1 && m != i - 1 ==> s[m].next == s[m + 1]
    requires forall m {:trigger s[m].prev} :: 1 <= m < |s| && m != j ==> s[m].prev == s[m - 1]
    requires s[i - 1].next == s[j] && s[j].prev == s[i - 1]
    requires s[0].prev == null && s[|s| - 1].next == null
    ensures Listed(s[..i] + s[j..]) && Linked(s[i..j])
  {
    var r := s[..i] + s[j..];
    assert forall m :: i <= m < |r| ==> r[m] == s[m + j - i];
  }

  /** The second half of `list_splice`: a detached chain goes in just before `before`. */
  method PutIn(before: Elem, first: Elem, last: Elem, ghost s: seq<Elem>, ghost k: nat, ghost chain: seq<Elem>)
    requires Listed(s) && 0 < k < |s| && s[k] == before
    requires Linked(chain) && chain != [] && chain[0] == first && chain[|chain| - 1] == last
    requires Apart(s, chain)
    modifies s[k - 1], before, first, last
    ensures Listed(s[..k] + chain + s[k..])
  {
    assert before.prev == s[k - 1];
    first.prev := before.prev;
    last.next := before;
    before.prev.next := first;
    before.prev := last;
    PutInIsListed(s, k, chain);
  }

  /** Links within a list and within a chain, and between the two ends of the chain and its new neighbours. */
  lemma PutInIsListed(s: seq<Elem>, k: nat, chain: seq<Elem>)
    requires 0 < k < |s| && chain != [] && Apart(s, chain)
    requires forall i, j :: 0 <= i < j < |s| ==> s[i] != s[j]
    requires forall i {:trigger s[i].next} :: 0 <= i < |s| - 1 && i != k - 1 ==> s[i].next == s[i + 1]
    requires forall i {:trigger s[i].prev} :: 1 <= i < |s| && i != k ==> s[i].prev == s[i - 1]
    requires s[0].prev == null && s[|s| - 1].next == null
    requires Linked(chain)
    requires s[k - 1].next == chain[0] && chain[0].prev == s[k - 1]
    requires s[k].prev == chain[|chain| - 1] && chain[|chain| - 1].next == s[k]
    ensures Listed(s[..k] + chain + s[k..])
  {
    var r := s[..k] + chain + s[k..];
    assert forall i :: k <= i < k + |chain| ==> r[i] == chain[i - k];
    assert forall i :: k + |chain| <= i < |r| ==> r[i] == s[i - |chain|];
  }

  lemma RemovedIsGone(s: seq<Elem>, k: nat)
    requires Listed(s) && k < |s|
    ensures s[k] !in s[..k] + s[k + 1..]
  {
  }

  /** `list_splice` within one list is a cut and an insertion into what the cut leaves. */
  lemma MovedByCutting(s: seq<Elem>, k: nat, i: nat, j: nat)
    requires 0 < i < j < |s| && 0 < k < |s| && (k < i || j <= k)
    ensures var rest, k' := s[..i] + s[j..], if k < i then k else k - (j - i);
            && rest[k'] == s[k] && rest[k' - 1] == (if j == k then s[i - 1] else s[k - 1])
            && rest[..k'] + s[i..j] + rest[k'..] == Moved(s, k, i, j)
  {
    var rest, k' := s[..i] + s[j..], if k < i then k else k - (j - i);
    if k < i {
      assert rest[..k'] == s[..k];
      assert rest[k'..] == s[k..i] + s[j..];
      assert s[..k] + s[i..j] + (s[k..i] + s[j..]) == Moved(s, k, i, j);
    } else {
      assert rest[..k'] == s[..i] + s[j..k];
      assert rest[k'..] == s[k..];
    }
  }

  lemma NotMoved<T>(s: seq<T>, k: nat, i: nat)
    requires k <= |s| && i <= |s|
    ensures Moved(s, k, i, i) == s
  {
  }

  lemma NotHead(s: seq<Elem>, k: nat)
    requires Listed(s) && 0 < k < |s|
    ensures IsInterior(s[k]) || IsTail(s[k])
  {
    LinksAt(s, k);
  }

  /** A range of one list is apart from the other list, and the elements next to it are elements of the list. */
  lemma RangeApart(s: seq<Elem>, t: seq<Elem>, i: nat, j: nat)
    requires Listed(s) && Apart(s, t) && 0 < i <= j < |s|
    ensures Apart(t, s[i..j]) && s[i - 1] !in t && s[j] !in t
    ensures forall e :: e in s[..i] + s[j..] ==> e !in t && e !in s[i..j]
  {
    CutApart(s, i, j);
    var rest := s[..i] + s[j..];
    forall e | e in rest
      ensures e in s
    {
      var n :| 0 <= n < |rest| && rest[n] == e;
      assert e == s[if n < i then n else n + j - i];
    }
  }

  lemma CutApart(s: seq<Elem>, i: nat, j: nat)
    requires i <= j <= |s| && Listed(s)
    ensures Apart(s[..i] + s[j..], s[i..j])
  {
  }

  /** `list_splice` within one list: `before` is outside `first`..`last`. */
  method Splice(before: Elem, first: Elem, last: Elem, ghost s: seq<Elem>, ghost k: nat, ghost i: nat, ghost j: nat)
    requires Listed(s) && 0 < k < |s| && 0 < i <= j < |s| && (i == j || k < i || j <= k)
    requires s[k] == before && s[i] == first && s[j] == last
    modifies s[i - 1], first, s[j - 1], last, s[k - 1], before
    ensures Listed(Moved(s, k, i, j))
  {
    hide Listed, Linked, Apart, Moved;
    CutApart(s, i, j);
    NotHead(s, k);
    assert IsInterior(before) || IsTail(before);
    if first == last {
      SamePlace(s, i, j);
      NotMoved(s, k, i);
      return;
    }
    MovedByCutting(s, k, i, j);
    ghost var rest, chain, k' := s[..i] + s[j..], s[i..j], if k < i then k else k - (j - i);
    var last' := Prev(last, s, j);
    CutOut(first, last', s, i, j);
    assert chain[0] == first && chain[|chain| - 1] == last';
    assert Linked(chain) && Apart(rest, chain) && Listed(rest);
    PutIn(before, first, last', rest, k', chain);
  }

  /** `list_splice` from one list to another. */
  method SpliceAcross(before: Elem, first: Elem, last: Elem,
                      ghost t: seq<Elem>, ghost k: nat, ghost s: seq<Elem>, ghost i: nat, ghost j: nat)
    requires Listed(s) && Listed(t) && Apart(s, t)
    requires 0 < k < |t| && 0 < i <= j < |s|
    requires t[k] == before && s[i] == first && s[j] == last
    modifies s, t
    ensures Listed(s[..i] + s[j..])
    ensures Listed(t[..k] + s[i..j] + t[k..])
  {
    hide Listed, Linked, Apart;
    NotHead(t, k);
    assert IsInterior(before) || IsTail(before);
    if first == last {
      SamePlace(s, i, j);
      assert s[..i] + s[j..] == s && t[..k] + s[i..j] + t[k..] == t;
      return;
    }
    ghost var chain := s[i..j];
    RangeApart(s, t, i, j);
    assert t[k - 1] in t && before in t;
    var last' := Prev(last, s, j);
    CutOut(first, last', s, i, j);
    assert chain[0] == first && chain[|chain| - 1] == last' && first in chain && last' in chain;
    PutIn(before, first, last', t, k, chain);
  }

  /** The adjacent case of `list_swap`. */
  method SwapNeighbours(a: Elem, b: Elem, ghost s: seq<Elem>, ghost i: nat)
    requires Listed(s) && 0 < i < |s| - 2 && s[i] == a && s[i + 1] == b
    modifies s[i - 1], a, b, s[i + 2]
    ensures Listed(Swapped(s, i, i + 1))
  {
    assert s[i].prev == s[i - 1] && s[i + 1].next == s[i + 2];
    var prevA, nextB := a.prev, b.next;
    prevA.next := b;
    b.prev := prevA;
    b.next := a;
    a.prev := b;
    a.next := nextB;
    nextB.prev := a;
  }

  /** The general case of `list_swap`: the neighbours of `a` and `b` may be one and the same. */
  method SwapApart(a: Elem, b: Elem, ghost s: seq<Elem>, ghost i: nat, ghost j: nat)
    requires Listed(s) && 0 < i < |s| - 1 && 0 < j < |s| - 1
    requires s[i] == a && s[j] == b && i != j && i + 1 != j && j + 1 != i
    modifies s[i - 1], a, s[i + 1], s[j - 1], b, s[j + 1]
    ensures Listed(Swapped(s, i, j))
  {
    assert s[i].prev == s[i - 1] && s[i].next == s[i + 1];
    assert s[j].prev == s[j - 1] && s[j].next == s[j + 1];
    var prevA, nextA, prevB, nextB := a.prev, a.next, b.prev, b.next;
    prevA.next := b;
    nextA.prev := b;
    prevB.next := a;
    nextB.prev := a;
    a.prev := prevB;
    a.next := nextB;
    b.prev := prevA;
    b.next := nextA;
    SwappedIsListed(s, i, j);
  }

  /** The links of a list in which two elements that are not neighbours have exchanged theirs. */
  lemma SwappedIsListed(s: seq<Elem>, i: nat, j: nat)
    requires 0 < i < |s| - 1 && 0 < j < |s| - 1 && i != j && i + 1 != j && j + 1 != i
    requires forall m, n :: 0 <= m < n < |s| ==> s[m] != s[n]
    requires forall m {:trigger s[m].next} :: 0 <= m < |s| - 1 && m != i - 1 && m != i && m != j - 1 && m != j ==>
               s[m].next == s[m + 1]
    requires forall m {:trigger s[m].prev} :: 1 <= m < |s| && m != i && m != i + 1 && m != j && m != j + 1 ==>
               s[m].prev == s[m - 1]
    requires s[i - 1].next == s[j] && s[i + 1].prev == s[j] && s[j - 1].next == s[i] && s[j + 1].prev == s[i]
    requires s[i].prev == s[j - 1] && s[i].next == s[j + 1] && s[j].prev == s[i - 1] && s[j].next == s[i + 1]
    requires s[0].prev == null && s[|s| - 1].next == null
    ensures Listed(Swapped(s, i, j))
  {
  }

  /** `list_swap`, wherever the two elements are in the list. */
  method Swap(a: Elem, b: Elem, ghost s: seq<Elem>, ghost i: nat, ghost j: nat)
    requires Listed(s) && 0 < i < |s| - 1 && 0 < j < |s| - 1 && s[i] == a && s[j] == b
    modifies s[i - 1], a, s[i + 1], s[j - 1], b, s[j + 1]
    ensures Listed(Swapped(s, i, j))
    decreases i > j
  {
    assert s[i].prev == s[i - 1] && s[i].next == s[i + 1];
    assert s[j].prev == s[j - 1] && s[j].next == s[j + 1];
    assert IsInterior(a) && IsInterior(b);
    if a == b {
      assert Swapped(s, i, j) == s;
    } else if a.next == b {
      SwapNeighbours(a, b, s, i);
    } else if b.next == a {
      Swap(b, a, s, j, i);
      assert Swapped(s, i, j) == Swapped(s, j, i);
    } else {
      SwapApart(a, b, s, i, j);
    }
  }

  /** `list_swap` on elements of two separate lists, which are never neighbours. */
  method SwapAcross(a: Elem, b: Elem, ghost s: seq<Elem>, ghost i: nat, ghost t: seq<Elem>, ghost j: nat)
    requires Listed(s) && Listed(t) && Apart(s, t)
    requires 0 < i < |s| - 1 && 0 < j < |t| - 1 && s[i] == a && t[j] == b
    modifies s[i - 1], a, s[i + 1], t[j - 1], b, t[j + 1]
    ensures Listed(s[i := b]) && Listed(t[j := a])
  {
    assert s[i].prev == s[i - 1] && s[i].next == s[i + 1];
    assert t[j].prev == t[j - 1] && t[j].next == t[j + 1];
    assert IsInterior(a) && IsInterior(b);
    assert a != b && a.next != b && b.next != a;
    var prevA, nextA, prevB, nextB := a.prev, a.next, b.prev, b.next;
    prevA.next := b;
    nextA.prev := b;
    prevB.next := a;
    nextB.prev := a;
    a.prev := prevB;
    a.next := nextB;
    b.prev := prevA;
    b.next := nextA;
    ReplacedIsListed(s, i, b);
    ReplacedIsListed(t, j, a);
  }

  /** The links of a list in which an element has taken the place of another one. */
  lemma ReplacedIsListed(s: seq<Elem>, i: nat, e: Elem)
    requires 0 < i < |s| - 1 && e !in s
    requires forall m, n :: 0 <= m < n < |s| ==> s[m] != s[n]
    requires forall m {:trigger s[m].next} :: 0 <= m < |s| - 1 && m != i - 1 && m != i ==> s[m].next == s[m + 1]
    requires forall m {:trigger s[m].prev} :: 1 <= m < |s| && m != i && m != i + 1 ==> s[m].prev == s[m - 1]
    requires s[i - 1].next == e && e.prev == s[i - 1] && e.next == s[i + 1] && s[i + 1].prev == e
    requires s[0].prev == null && s[|s| - 1].next == null
    ensures Listed(s[i := e])
  {
  }

  lemma SwappedTwice<T>(s: seq<T>, i: nat, j: nat)
    requires i < |s| && j < |s|
    ensures Swapped(Swapped(s, i, j), i, j) == s
    ensures multiset(Swapped(s, i, j)) == multiset(s)
  {
  }

  lemma ReversedTwice<T>(s: seq<T>)
    ensures Reversed(Reversed(s)) == s
  {
  }

  /** An element put into a sequence between a head and a tail, or taken out of it. */
  lemma PutInside<T>(x: T, s: seq<T>, y: T, k: nat, e: T)
    requires k <= |s|
    ensures var u := [x] + s + [y]; u[..k + 1] + [e] + u[k + 1..] == [x] + (s[..k] + [e] + s[k..]) + [y]
    ensures s[..0] + [e] + s[0..] == [e] + s && s[..|s|] + [e] + s[|s|..] == s + [e]
  {
  }

  lemma TakenInside<T>(x: T, s: seq<T>, y: T, k: nat)
    requires k < |s|
    ensures var u := [x] + s + [y]; u[..k + 1] + u[k + 2..] == [x] + (s[..k] + s[k + 1..]) + [y]
  {
  }

  /** The nodes of the mirrored list; a list of no elements is its own mirror. */
  lemma MirroredNodes<T>(x: T, s: seq<T>, y: T)
    ensures var u, r := [x] + s + [y], [x] + Reversed(s) + [y];
            && |r| == |u| && r[0] == x && r[|u| - 1] == y
            && forall m :: 1 <= m < |u| - 1 ==> r[m] == u[|u| - 1 - m]
    ensures s == [] ==> Reversed(s) == []
  {
  }

  // ---------- Whole lists ----------

  /** `struct list`. */
  class List {
    const head: Elem
    const tail: Elem
    ghost var elems: seq<Elem>

    ghost function Nodes(): seq<Elem>
      reads this
    {
      [head] + elems + [tail]
    }

    ghost predicate Valid()
      reads this, Nodes()
    {
      Listed(Nodes())
    }

    /** `list_init` on new storage. */
    constructor ()
      ensures Valid() && elems == []
      ensures fresh(head) && fresh(tail)
    {
      head := new Elem.Header();
      tail := new Elem.Header();
      new;
      Init();
    }

    /** `list_init`. */
    method Init()
      requires head != tail
      modifies this, head, tail
      ensures Valid() && elems == []
    {
      head.prev := null;
      head.next := tail;
      tail.prev := head;
      tail.next := null;
      elems := [];
    }

    /** `list_begin`. */
    method Begin() returns (e: Elem)
      requires Valid()
      ensures e == Nodes()[1]
    {
      assert Nodes()[0].next == Nodes()[1];
      e := head.next;
    }

    /** `list_rbegin`. */
    method RBegin() returns (e: Elem)
      requires Valid()
      ensures e == Nodes()[|elems|]
    {
      assert Nodes()[|elems| + 1].prev == Nodes()[|elems|];
      e := tail.prev;
    }

    /** `list_empty`. */
    method IsEmpty() returns (r: bool)
      requires Valid()
      ensures r <==> elems == []
    {
      var b := Begin();
      r := b == tail;
    }

    /** `list_size`. */
    method Size() returns (n: nat)
      requires Valid()
      ensures n == |elems|
    {
      n := 0;
      var e := Begin();
      while e != tail
        invariant n <= |elems| && e == Nodes()[n + 1]
        decreases |elems| - n
      {
        n := n + 1;
        e := Next(e, Nodes(), n);
      }
    }

    /** `list_push_front`. */
    method PushFront(e: Elem)
      requires Valid() && e !in Nodes()
      modifies this, head, Nodes()[1], e
      ensures Valid() && elems == [e] + old(elems)
    {
      hide Listed;
      var b := Begin();
      Insert(b, e, Nodes(), 1);
      PutInside(head, elems, tail, 0, e);
      elems := [e] + elems;
    }

    /** `list_push_back`. */
    method PushBack(e: Elem)
      requires Valid() && e !in Nodes()
      modifies this, tail, Nodes()[|elems|], e
      ensures Valid() && elems == old(elems) + [e]
    {
      hide Listed;
      Insert(tail, e, Nodes(), |elems| + 1);
      PutInside(head, elems, tail, |elems|, e);
      elems := elems + [e];
    }

    /** `list_remove`, on the element at position `k` of this list. */
    method RemoveAt(e: Elem, ghost k: nat) returns (n: Elem)
      requires Valid() && k < |elems| && elems[k] == e
      modifies this, Nodes()[k], Nodes()[k + 2]
      ensures Valid() && elems == old(elems)[..k] + old(elems)[k + 1..]
      ensures n == Nodes()[k + 1] && e !in Nodes()
    {
      hide Listed;
      ghost var s := Nodes();
      RemovedIsGone(s, k + 1);
      n := Remove(e, s, k + 1);
      TakenInside(head, elems, tail, k);
      elems := elems[..k] + elems[k + 1..];
    }

    /** `list_pop_front`. */
    method PopFront() returns (e: Elem)
      requires Valid() && elems != []
      modifies this, Nodes()
      ensures Valid() && e == old(elems)[0] && elems == old(elems)[1..]
    {
      e := Begin();
      var _ := RemoveAt(e, 0);
    }

    /** `list_pop_back`. */
    method PopBack() returns (e: Elem)
      requires Valid() && elems != []
      modifies this, Nodes()
      ensures Valid()
      ensures e == old(elems)[|old(elems)| - 1] && elems == old(elems)[..|old(elems)| - 1]
    {
      e := RBegin();
      var _ := RemoveAt(e, |elems| - 1);
    }

    /** The loop of `list_reverse`, which exchanges the links of every interior element. */
    method ExchangeLinks(ghost s: seq<Elem>)
      requires Valid() && elems != [] && s == Nodes()
      modifies s
      ensures forall m {:trigger s[m].next} :: 1 <= m < |s| - 1 ==> s[m].next == s[m - 1]
      ensures forall m {:trigger s[m].prev} :: 1 <= m < |s| - 1 ==> s[m].prev == s[m + 1]
      ensures head.prev == null && head.next == s[1] && tail.prev == s[|s| - 2] && tail.next == null
    {
      ghost var i := 1;
      var e := Begin();
      while e != tail
        invariant 1 <= i < |s| && e == s[i]
        invariant forall m {:trigger s[m].next} :: 1 <= m < i ==> s[m].next == s[m - 1]
        invariant forall m {:trigger s[m].prev} :: 1 <= m < i ==> s[m].prev == s[m + 1]
        invariant forall m {:trigger s[m].next} :: i <= m < |s| - 1 ==> s[m].next == s[m + 1]
        invariant forall m {:trigger s[m].prev} :: i <= m < |s| - 1 ==> s[m].prev == s[m - 1]
        invariant head.prev == null && head.next == s[1] && tail.prev == s[|s| - 2] && tail.next == null
        decreases |s| - i
      {
        e.prev, e.next := e.next, e.prev;
        e := e.prev;
        i := i + 1;
      }
    }

    /** `list_reverse`. */
    method Reverse()
      requires Valid()
      modifies this, Nodes()
      ensures Valid() && elems == Reversed(old(elems))
    {
      hide Reversed;
      var empty := IsEmpty();
      MirroredNodes(head, elems, tail);
      if !empty {
        ghost var s := Nodes();
        ExchangeLinks(s);
        head.next, tail.prev := tail.prev, head.next;
        head.next.prev, tail.prev.next := tail.prev.next, head.next.prev;
        elems := Reversed(elems);
        MirrorIsListed(s, Nodes());
      }
    }
  }

  /** Links that all lead the other way, except at the two ends, make up the mirrored list. */
  lemma MirrorIsListed(s: seq<Elem>, r: seq<Elem>)
    requires |r| == |s| >= 3 && r[0] == s[0] && r[|s| - 1] == s[|s| - 1]
    requires forall i, j :: 0 <= i < j < |s| ==> s[i] != s[j]
    requires forall m :: 1 <= m < |s| - 1 ==> r[m] == s[|s| - 1 - m]
    requires forall m {:trigger s[m].next} :: 2 <= m < |s| - 1 ==> s[m].next == s[m - 1]
    requires forall m {:trigger s[m].prev} :: 1 <= m < |s| - 2 ==> s[m].prev == s[m + 1]
    requires s[0].prev == null && s[0].next == s[|s| - 2] && s[|s| - 2].prev == s[0]
    requires s[|s| - 1].next == null && s[|s| - 1].prev == s[1] && s[1].next == s[|s| - 1]
    ensures Listed(r)
  {
    var n := |s| - 1;
    forall m | 0 <= m < n
      ensures r[m].next == r[m + 1] && r[m + 1].prev == r[m]
    {
      if 0 < m < n - 1 {
        assert s[n - m].next == s[n - m - 1];
        assert s[n - m - 1].prev == s[n - m];
      }
    }
  }

  // ---------- Undoing ----------

  ghost function Before(s: seq<Elem>, i: nat): Elem?
    requires i < |s|
  {
    if i > 0 then s[i - 1] else null
  }

  ghost function After(s: seq<Elem>, i: nat): Elem?
    requires i < |s|
  {
    if i < |s| - 1 then s[i + 1] else null
  }

  /** The order of a list determines all its links. */
  lemma OrderIsLinks(s: seq<Elem>)
    requires Listed(s)
    ensures forall i {:trigger Before(s, i)} :: 0 <= i < |s| ==> s[i].prev == Before(s, i) && s[i].next == After(s, i)
  {
    forall i | 0 <= i < |s|
      ensures s[i].prev == Before(s, i) && s[i].next == After(s, i)
    {
      LinksAt(s, i);
    }
  }

  /** Reversing twice restores every link. */
  method ReverseTwice(list: List, ghost own: set<Elem>)
    requires list.Valid() && Within(list.Nodes(), own)
    modifies list, own
    ensures list.Valid() && list.elems == old(list.elems)
    ensures forall e :: e in list.Nodes() ==> e.prev == old(e.prev) && e.next == old(e.next)
  {
    hide Listed, Reversed;
    ghost var s, nodes := list.elems, list.Nodes();
    OrderIsLinks(nodes);
    list.Reverse();
    ReversedWithin(list.head, s, list.tail, own);
    list.Reverse();
    ReversedTwice(s);
    OrderIsLinks(nodes);
    forall e | e in nodes
      ensures e.prev == old(e.prev) && e.next == old(e.next)
    {
      var i :| 0 <= i < |nodes| && nodes[i] == e;
      var _ := Before(nodes, i);
    }
  }

  lemma ReversedWithin(head: Elem, s: seq<Elem>, tail: Elem, own: set<Elem>)
    requires Within([head] + s + [tail], own)
    ensures Within([head] + Reversed(s) + [tail], own)
  {
    var a, b := [head] + s + [tail], [head] + Reversed(s) + [tail];
    forall i | 0 <= i < |b|
      ensures b[i] in own
    {
      assert b[i] == a[if i == 0 || i == |b| - 1 then i else |b| - 1 - i];
    }
  }

  /** Swapping the same two elements twice restores every link. */
  method SwapTwice(a: Elem, b: Elem, ghost s: seq<Elem>, ghost i: nat, ghost j: nat)
    requires Listed(s) && 0 < i < |s| - 1 && 0 < j < |s| - 1 && s[i] == a && s[j] == b
    modifies s
    ensures Listed(s) && forall e :: e in s ==> e.prev == old(e.prev) && e.next == old(e.next)
  {
    hide Listed;
    OrderIsLinks(s);
    Swap(a, b, s, i, j);
    Swap(a, b, Swapped(s, i, j), j, i);
    SwappedTwice(s, i, j);
    assert Swapped(Swapped(s, i, j), j, i) == s;
    OrderIsLinks(s);
    forall e | e in s
      ensures e.prev == old(e.prev) && e.next == old(e.next)
    {
      var n :| 0 <= n < |s| && s[n] == e;
      var _ := Before(s, n);
    }
  }

  lemma SwappedApart(s: seq<Elem>, i: nat, t: seq<Elem>, j: nat)
    requires Listed(s) && Listed(t) && Apart(s, t) && i < |s| && j < |t|
    ensures Apart(s[i := t[j]], t[j := s[i]])
    ensures s[i := t[j]][i := s[i]] == s && t[j := s[i]][j := t[j]] == t
  {
  }

  /** So does swapping across two lists and back. */
  method SwapAcrossTwice(a: Elem, b: Elem, ghost s: seq<Elem>, ghost i: nat, ghost t: seq<Elem>, ghost j: nat)
    requires Listed(s) && Listed(t) && Apart(s, t)
    requires 0 < i < |s| - 1 && 0 < j < |t| - 1 && s[i] == a && t[j] == b
    modifies s, t
    ensures Listed(s) && forall e :: e in s ==> e.prev == old(e.prev) && e.next == old(e.next)
    ensures Listed(t) && forall e :: e in t ==> e.prev == old(e.prev) && e.next == old(e.next)
  {
    hide Listed, Apart;
    OrderIsLinks(s);
    OrderIsLinks(t);
    SwappedApart(s, i, t, j);
    SwapAcross(a, b, s, i, t, j);
    SwapAcross(b, a, s[i := b], i, t[j := a], j);
    OrderIsLinks(s);
    OrderIsLinks(t);
    forall e | e in s
      ensures e.prev == old(e.prev) && e.next == old(e.next)
    {
      var n :| 0 <= n < |s| && s[n] == e;
      var _ := Before(s, n);
    }
    forall e | e in t
      ensures e.prev == old(e.prev) && e.next == old(e.next)
    {
      var n :| 0 <= n < |t| && t[n] == e;
      var _ := Before(t, n);
    }
  }
}
