/** The other operations of `list.c` on ordered elements: ordered insertion, removal of
    adjacent duplicates, and the extremes. */
module OrderedLists {
  import opened Elements
  import opened Order
  import opened OrderFacts
  import opened NaturalMergeSort
  import opened Lists

  // ---------- Ordered insertion ----------

  /** `e` before the first element that it is less than. */
  ghost function InsertedInOrder(less: Less, e: Elem, s: seq<Elem>): seq<Elem> {
    if s == [] || less(e.item, s[0].item) then [e] + s
    else [s[0]] + InsertedInOrder(less, e, s[1..])
  }

  /** The elements of `s` inserted in order, one by one, into an empty list. */
  ghost function InsertionSort(less: Less, s: seq<Elem>): seq<Elem> {
    if s == [] then [] else InsertedInOrder(less, s[|s| - 1], InsertionSort(less, s[..|s| - 1]))
  }

  lemma {:induction false} InsertedAt(less: Less, e: Elem, s: seq<Elem>, k: nat)
    requires k <= |s| && (forall i :: 0 <= i < k ==> !less(e.item, s[i].item))
    requires k < |s| ==> less(e.item, s[k].item)
    ensures InsertedInOrder(less, e, s) == s[..k] + [e] + s[k..]
  {
    if k > 0 {
      assert s[1..][..k - 1] == s[1..k] && s[1..][k - 1..] == s[k..];
      InsertedAt(less, e, s[1..], k - 1);
      assert [s[0]] + s[1..k] == s[..k];
    }
  }

  /** The loop of `list_insert_ordered`: the element to insert `e` before. */
  method FindPlace(list: List, e: Elem, less: Less) returns (p: Elem, ghost k: nat)
    requires list.Valid()
    ensures k <= |list.elems| && p == list.Nodes()[k + 1]
    ensures InsertedInOrder(less, e, list.elems) == list.elems[..k] + [e] + list.elems[k..]
  {
    ghost var s := list.Nodes();
    k := 0;
    p := list.Begin();
    while p != list.tail
      invariant k <= |list.elems| && p == s[k + 1]
      invariant forall i :: 0 <= i < k ==> !less(e.item, list.elems[i].item)
      decreases |list.elems| - k
    {
      if less(e.item, p.item) {
        break;
      }
      p := Next(p, s, k + 1);
      k := k + 1;
    }
    if p == list.tail {
      SamePlace(s, k + 1, |s| - 1);
    }
    InsertedAt(less, e, list.elems, k);
  }

  /** `list_insert_ordered`. */
  method InsertOrdered(list: List, e: Elem, less: Less)
    requires list.Valid() && e !in list.Nodes()
    modifies list, list.Nodes(), e
    ensures list.Valid() && list.elems == InsertedInOrder(less, e, old(list.elems))
  {
    hide Listed, InsertedInOrder;
    var p;
    ghost var k;
    p, k := FindPlace(list, e, less);
    Insert(p, e, list.Nodes(), k + 1);
    PutInside(list.head, list.elems, list.tail, k, e);
    list.elems := list.elems[..k] + [e] + list.elems[k..];
  }

  lemma {:induction false} InsertionKeepsSorted(less: Less, e: Elem, s: seq<Elem>)
    requires StrictWeakOrder(less) && Sorted(less, s)
    ensures Sorted(less, InsertedInOrder(less, e, s))
    ensures forall x :: x in InsertedInOrder(less, e, s) ==> x == e || x in s
  {
    if s == [] {
    } else if less(e.item, s[0].item) {
      forall x | x in s
        ensures !less(x.item, e.item)
      {
        assert !less(x.item, s[0].item);
      }
      SortedCons(less, e, s);
    } else {
      InsertionKeepsSorted(less, e, s[1..]);
      SortedCons(less, s[0], InsertedInOrder(less, e, s[1..]));
    }
  }

  lemma {:induction false} InsertionClass(less: Less, c: Item, e: Elem, s: seq<Elem>)
    requires StrictWeakOrder(less) && Sorted(less, s)
    ensures Class(less, c, InsertedInOrder(less, e, s)) == Class(less, c, s + [e])
  {
    ClassOfConcat(less, c, s, [e]);
    if s == [] {
    } else if less(e.item, s[0].item) {
      ClassOfConcat(less, c, [e], s);
      if Equal(less, c, e.item) {
        assert less(c, s[0].item);
        NoneEqualAbove(less, c, s);
      }
    } else {
      InsertionClass(less, c, e, s[1..]);
      ClassOfConcat(less, c, s[1..], [e]);
      ClassOfCons(less, c, s[0], InsertedInOrder(less, e, s[1..]));
    }
  }

  lemma {:induction false} InsertionSortIsStableSort(less: Less, s: seq<Elem>)
    requires StrictWeakOrder(less)
    ensures Sorted(less, InsertionSort(less, s)) && SameClasses(less, s, InsertionSort(less, s))
  {
    if s != [] {
      var p, e := s[..|s| - 1], s[|s| - 1];
      InsertionSortIsStableSort(less, p);
      InsertionKeepsSorted(less, e, InsertionSort(less, p));
      forall c
        ensures Class(less, c, s) == Class(less, c, InsertionSort(less, s))
      {
        InsertionClass(less, c, e, InsertionSort(less, p));
        ClassOfConcat(less, c, InsertionSort(less, p), [e]);
        ClassOfConcat(less, c, p, [e]);
        assert s == p + [e];
      }
    }
  }

  /** Building a list by ordered insertions gives exactly the order that `list_sort` gives. */
  lemma InsertionsAgreeWithSort(less: Less, s: seq<Elem>)
    requires StrictWeakOrder(less)
    ensures InsertionSort(less, s) == SortBy(less, s)
  {
    InsertionSortIsStableSort(less, s);
    SortByIsStableSort(less, s);
    StableSortIsUnique(less, InsertionSort(less, s), SortBy(less, s));
  }

  /** A new list into which the given elements are inserted in order, one by one. */
  method InsertAll(nodes: seq<Elem>, less: Less) returns (list: List)
    requires StrictWeakOrder(less) && forall i, j :: 0 <= i < j < |nodes| ==> nodes[i] != nodes[j]
    modifies set e | e in nodes
    ensures fresh(list) && list.Valid() && list.elems == SortBy(less, nodes)
  {
    hide StrictWeakOrder, Listed, InsertionSort, InsertedInOrder;
    list := new List();
    NoInsertion(less);
    for n := 0 to |nodes|
      invariant fresh(list) && fresh(list.head) && fresh(list.tail) && list.Valid()
      invariant list.elems == InsertionSort(less, nodes[..n])
      invariant forall e :: e in list.elems ==> e in nodes[..n] && e in nodes
    {
      assert nodes[n] in nodes && nodes[n] !in nodes[..n];
      assert forall e :: e in list.Nodes() ==> e == list.head || e == list.tail || e in nodes;
      NextInsertion(less, nodes, n);
      InsertionMembers(less, nodes[n], list.elems);
      InsertOrdered(list, nodes[n], less);
    }
    assert nodes[..|nodes|] == nodes;
    InsertionsAgreeWithSort(less, nodes);
  }

  lemma NoInsertion(less: Less)
    ensures InsertionSort(less, []) == []
  {
  }

  lemma NextInsertion(less: Less, s: seq<Elem>, n: nat)
    requires n < |s|
    ensures InsertionSort(less, s[..n + 1]) == InsertedInOrder(less, s[n], InsertionSort(less, s[..n]))
    ensures s[..n + 1] == s[..n] + [s[n]]
  {
    assert s[..n + 1][..n] == s[..n];
  }

  lemma {:induction false} InsertionMembers(less: Less, e: Elem, s: seq<Elem>)
    ensures forall x :: x in InsertedInOrder(less, e, s) ==> x == e || x in s
  {
    if s != [] && !less(e.item, s[0].item) {
      InsertionMembers(less, e, s[1..]);
    }
  }

  // ---------- Extremes ----------

  /** `m` is the first of the smallest elements. */
  ghost predicate FirstMin(less: Less, s: seq<Elem>, m: nat) {
    && m < |s|
    && (forall i :: 0 <= i < |s| ==> !less(s[i].item, s[m].item))
    && (forall i :: 0 <= i < m ==> less(s[m].item, s[i].item))
  }

  /** `m` is the first of the largest elements. */
  ghost predicate FirstMax(less: Less, s: seq<Elem>, m: nat) {
    && m < |s|
    && (forall i :: 0 <= i < |s| ==> !less(s[m].item, s[i].item))
    && (forall i :: 0 <= i < m ==> less(s[i].item, s[m].item))
  }

  lemma NextMin(less: Less, s: seq<Elem>, k: nat, m: nat)
    requires StrictWeakOrder(less) && k < |s| && FirstMin(less, s[..k], m)
    ensures FirstMin(less, s[..k + 1], if less(s[k].item, s[m].item) then k else m)
  {
    assert s[..k + 1] == s[..k] + [s[k]];
  }

  lemma OneIsMin(less: Less, s: seq<Elem>)
    requires StrictWeakOrder(less) && s != []
    ensures FirstMin(less, s[..1], 0)
  {
  }

  /** `list_min`. */
  method Min(list: List, less: Less) returns (min: Elem, ghost m: nat)
    requires list.Valid() && StrictWeakOrder(less)
    ensures list.elems == [] ==> min == list.tail
    ensures list.elems != [] ==> FirstMin(less, list.elems, m) && min == list.elems[m]
    ensures forall e :: e in list.elems ==> !less(e.item, min.item)
    ensures forall i :: 0 <= i < m < |list.elems| ==> less(min.item, list.elems[i].item)
  {
    hide FirstMin, StrictWeakOrder, Listed;
    m := 0;
    min := list.Begin();
    if min == list.tail {
      SamePlace(list.Nodes(), 1, |list.elems| + 1);
    } else {
      ghost var s, k := list.Nodes(), 1;
      var e := Next(min, s, 1);
      OneIsMin(less, list.elems);
      while e != list.tail
        invariant m < k <= |list.elems| && e == s[k + 1] && min == s[m + 1]
        invariant FirstMin(less, list.elems[..k], m)
        decreases |list.elems| - k
      {
        NextMin(less, list.elems, k, m);
        if less(e.item, min.item) {
          min := e;
          m := k;
        }
        e := Next(e, s, k + 1);
        k := k + 1;
      }
      SamePlace(s, k + 1, |s| - 1);
      assert list.elems[..k] == list.elems;
      FirstMinMeans(less, list.elems, m);
    }
  }

  lemma FirstMinMeans(less: Less, s: seq<Elem>, m: nat)
    requires FirstMin(less, s, m)
    ensures m < |s| && forall e :: e in s ==> !less(e.item, s[m].item)
    ensures forall i :: 0 <= i < m ==> less(s[m].item, s[i].item)
  {
  }

  lemma NextMax(less: Less, s: seq<Elem>, k: nat, m: nat)
    requires StrictWeakOrder(less) && k < |s| && FirstMax(less, s[..k], m)
    ensures FirstMax(less, s[..k + 1], if less(s[m].item, s[k].item) then k else m)
  {
    assert s[..k + 1] == s[..k] + [s[k]];
  }

  lemma OneIsMax(less: Less, s: seq<Elem>)
    requires StrictWeakOrder(less) && s != []
    ensures FirstMax(less, s[..1], 0)
  {
  }

  /** `list_max`. */
  method Max(list: List, less: Less) returns (max: Elem, ghost m: nat)
    requires list.Valid() && StrictWeakOrder(less)
    ensures list.elems == [] ==> max == list.tail
    ensures list.elems != [] ==> m < |list.elems| && max == list.elems[m]
    ensures forall e :: e in list.elems ==> !less(max.item, e.item)
    ensures forall i :: 0 <= i < m < |list.elems| ==> less(list.elems[i].item, max.item)
  {
    hide FirstMax, StrictWeakOrder, Listed;
    m := 0;
    max := list.Begin();
    if max == list.tail {
      SamePlace(list.Nodes(), 1, |list.elems| + 1);
    } else {
      ghost var s, k := list.Nodes(), 1;
      var e := Next(max, s, 1);
      OneIsMax(less, list.elems);
      while e != list.tail
        invariant m < k <= |list.elems| && e == s[k + 1] && max == s[m + 1]
        invariant FirstMax(less, list.elems[..k], m)
        decreases |list.elems| - k
      {
        NextMax(less, list.elems, k, m);
        if less(max.item, e.item) {
          max := e;
          m := k;
        }
        e := Next(e, s, k + 1);
        k := k + 1;
      }
      SamePlace(s, k + 1, |s| - 1);
      assert list.elems[..k] == list.elems;
      FirstMaxMeans(less, list.elems, m);
    }
  }

  lemma FirstMaxMeans(less: Less, s: seq<Elem>, m: nat)
    requires FirstMax(less, s, m)
    ensures m < |s| && forall e :: e in s ==> !less(s[m].item, e.item)
    ensures forall i :: 0 <= i < m ==> less(s[i].item, s[m].item)
  {
  }

  lemma {:induction false} FirstOfClass(less: Less, s: seq<Elem>, m: nat)
    requires StrictWeakOrder(less) && FirstMin(less, s, m)
    ensures Class(less, s[m].item, s) != [] && Class(less, s[m].item, s)[0] == s[m]
  {
    if m > 0 {
      assert less(s[m].item, s[0].item);
      assert FirstMin(less, s[1..], m - 1);
      FirstOfClass(less, s[1..], m - 1);
    }
  }

  /** `list_min` finds the element that `list_sort` puts first. */
  lemma MinIsFirstSorted(less: Less, s: seq<Elem>, m: nat)
    requires StrictWeakOrder(less) && FirstMin(less, s, m)
    ensures SortBy(less, s) != [] && SortBy(less, s)[0] == s[m]
  {
    var t := SortBy(less, s);
    SortByIsStableSort(less, s);
    assert |multiset(t)| == |t| && |multiset(s)| == |s|;
    assert s[m] in multiset(t) && t[0] in multiset(s);
    FirstOfClass(less, s, m);
    assert FirstMin(less, t, 0);
    FirstOfClass(less, t, 0);
    assert Equal(less, s[m].item, t[0].item);
    SameClassOfEqual(less, s[m].item, t[0].item, t);
  }

  lemma {:induction false} SameClassOfEqual(less: Less, c: Item, d: Item, s: seq<Elem>)
    requires StrictWeakOrder(less) && Equal(less, c, d)
    ensures Class(less, c, s) == Class(less, d, s)
  {
    if s != [] {
      SameClassOfEqual(less, c, d, s[1..]);
    }
  }

  // ---------- Adjacent duplicates ----------

  /** The first element of each maximal block of adjacent equal elements. */
  ghost function Firsts(less: Less, s: seq<Elem>): seq<Elem> {
    if |s| <= 1 then s
    else
      var p, e := s[..|s| - 1], s[|s| - 1];
      if Equal(less, s[|s| - 2].item, e.item) then Firsts(less, p) else Firsts(less, p) + [e]
  }

  /** The other elements. */
  ghost function Repeats(less: Less, s: seq<Elem>): seq<Elem> {
    if |s| <= 1 then []
    else
      var p, e := s[..|s| - 1], s[|s| - 1];
      if Equal(less, s[|s| - 2].item, e.item) then Repeats(less, p) + [e] else Repeats(less, p)
  }

  lemma LastOne(less: Less, s: seq<Elem>)
    requires |s| > 1
    ensures var p, e := s[..|s| - 1], s[|s| - 1]; var equal := Equal(less, s[|s| - 2].item, e.item);
            && Firsts(less, s) == (if equal then Firsts(less, p) else Firsts(less, p) + [e])
            && Repeats(less, s) == (if equal then Repeats(less, p) + [e] else Repeats(less, p))
  {
    hide Equal;
  }

  lemma Snoc(p: seq<Elem>, e: Elem)
    ensures var s := p + [e]; |s| == |p| + 1 && s[..|s| - 1] == p && s[|s| - 1] == e
    ensures p != [] ==> (p + [e])[|p + [e]| - 2] == p[|p| - 1]
  {
  }

  lemma UniqueLast(less: Less, p: seq<Elem>, e: Elem)
    requires p != []
    ensures var equal := Equal(less, p[|p| - 1].item, e.item);
            && Firsts(less, p + [e]) == (if equal then Firsts(less, p) else Firsts(less, p) + [e])
            && Repeats(less, p + [e]) == (if equal then Repeats(less, p) + [e] else Repeats(less, p))
  {
    hide Equal, Firsts, Repeats;
    Snoc(p, e);
    LastOne(less, p + [e]);
  }

  lemma UniqueShort(less: Less, s: seq<Elem>)
    requires |s| <= 1
    ensures Firsts(less, s) == s && Repeats(less, s) == []
  {
  }

  lemma FirstsOfNext(less: Less, s: seq<Elem>, m: nat)
    requires 0 < m < |s|
    ensures var equal := Equal(less, s[m - 1].item, s[m].item);
            && Firsts(less, s[..m + 1]) == (if equal then Firsts(less, s[..m]) else Firsts(less, s[..m]) + [s[m]])
            && Repeats(less, s[..m + 1]) == (if equal then Repeats(less, s[..m]) + [s[m]] else Repeats(less, s[..m]))
  {
    hide Firsts, Repeats;
    UniqueLast(less, s[..m], s[m]);
    assert s[..m + 1] == s[..m] + [s[m]];
  }

  lemma SnocToOne(p: seq<Elem>, f: seq<Elem>, r: seq<Elem>, e: Elem, toFirst: bool)
    requires multiset(f) + multiset(r) == multiset(p)
    ensures multiset(if toFirst then f + [e] else f) + multiset(if toFirst then r else r + [e]) == multiset(p + [e])
  {
  }

  /** No element is lost or duplicated. */
  lemma {:induction false} UniqueConserves(less: Less, s: seq<Elem>)
    ensures multiset(Firsts(less, s)) + multiset(Repeats(less, s)) == multiset(s)
  {
    hide Firsts, Repeats, Equal;
    if |s| <= 1 {
      UniqueShort(less, s);
    } else {
      var p, e := s[..|s| - 1], s[|s| - 1];
      UniqueConserves(less, p);
      UniqueLast(less, p, e);
      SnocToOne(p, Firsts(less, p), Repeats(less, p), e, !Equal(less, p[|p| - 1].item, e.item));
      assert s == p + [e];
    }
  }

  ghost function FirstOnly(s: seq<Elem>): seq<Elem> {
    if s == [] then [] else [s[0]]
  }

  lemma FirstOfSnoc(s: seq<Elem>, e: Elem)
    ensures FirstOnly(s + [e]) == if s == [] then FirstOnly(s) + [e] else FirstOnly(s)
  {
  }

  /** On a sorted list, exactly the first element of every class remains. */
  lemma {:induction false} UniqueOnSorted(less: Less, c: Item, s: seq<Elem>)
    requires StrictWeakOrder(less) && Sorted(less, s)
    ensures Class(less, c, Firsts(less, s)) == FirstOnly(Class(less, c, s))
  {
    hide Firsts, Repeats, Equal, Sorted, StrictWeakOrder, Class;
    if |s| <= 1 {
      UniqueShort(less, s);
      ShortClass(less, c, s);
    } else {
      var p, e := s[..|s| - 1], s[|s| - 1];
      SortedPrefix(less, s);
      LastOfSorted(less, c, s);
      UniqueLast(less, p, e);
      UniqueOnSorted(less, c, p);
      assert s == p + [e];
      hide FirstOnly;
      ClassOfSnoc(less, c, p, e);
      ClassOfSnoc(less, c, Firsts(less, p), e);
      FirstOfSnoc(Class(less, c, p), e);
    }
  }

  lemma SortedPrefix(less: Less, s: seq<Elem>)
    requires Sorted(less, s) && s != []
    ensures Sorted(less, s[..|s| - 1])
  {
  }

  lemma ShortClass(less: Less, c: Item, s: seq<Elem>)
    requires |s| <= 1
    ensures |Class(less, c, s)| <= 1
  {
  }

  /** Whether the last element of a sorted list is the first of its class. */
  lemma LastOfSorted(less: Less, c: Item, s: seq<Elem>)
    requires StrictWeakOrder(less) && Sorted(less, s) && |s| > 1
    ensures var p, e := s[..|s| - 1], s[|s| - 1];
            Equal(less, c, e.item) ==> (Class(less, c, p) != [] <==> Equal(less, s[|s| - 2].item, e.item))
  {
    var p, e := s[..|s| - 1], s[|s| - 1];
    var q := p[|p| - 1];
    if Equal(less, c, e.item) {
      if Equal(less, q.item, e.item) {
        ClassMembers(less, c, p, q);
      } else {
        assert less(q.item, e.item) && less(q.item, c);
        NoneEqualBelow(less, c, p);
      }
    }
  }

  lemma ClassOfSnoc(less: Less, c: Item, s: seq<Elem>, e: Elem)
    ensures Class(less, c, s + [e]) == if Equal(less, c, e.item) then Class(less, c, s) + [e] else Class(less, c, s)
  {
    ClassOfConcat(less, c, s, [e]);
  }

  lemma {:induction false} NoneEqualBelow(less: Less, c: Item, s: seq<Elem>)
    requires StrictWeakOrder(less) && Sorted(less, s) && s != [] && less(s[|s| - 1].item, c)
    ensures Class(less, c, s) == []
  {
    assert |s| > 1 ==> !less(s[|s| - 1].item, s[0].item);
    if |s| > 1 {
      NoneEqualBelow(less, c, s[1..]);
    }
  }

  lemma EqualToBoth(less: Less, a: Item, b: Item, c: Item)
    requires StrictWeakOrder(less) && Equal(less, a, b)
    ensures Equal(less, a, c) <==> Equal(less, b, c)
    ensures Equal(less, c, c)
  {
  }

  /** The list of duplicates, when there is one, is a list of its own. */
  ghost predicate Separate(list: List, duplicates: List?)
    reads list, list.Nodes(), duplicates, if duplicates == null then [] else duplicates.Nodes()
  {
    && list.Valid()
    && (duplicates != null ==> duplicates != list && duplicates.Valid() && Apart(list.Nodes(), duplicates.Nodes()))
  }

  /** All the elements of both lists. */
  ghost function Footprint(list: List, duplicates: List?): set<Elem>
    reads list, duplicates
  {
    (set e | e in list.Nodes()) + if duplicates == null then {} else set e | e in duplicates.Nodes()
  }

  lemma ApartMembers(s: seq<Elem>, t: seq<Elem>)
    requires Apart(s, t)
    ensures forall e :: e in s ==> e !in t
  {
  }

  lemma ApartWithout(s: seq<Elem>, k: nat, t: seq<Elem>)
    requires Apart(s, t) && k < |s|
    ensures Apart(s[..k] + s[k + 1..], t) && s[k] !in t
  {
    var r := s[..k] + s[k + 1..];
    assert forall i :: 0 <= i < |r| ==> r[i] == s[if i < k then i else i + 1];
  }

  lemma ApartWith(s: seq<Elem>, x: Elem, t: seq<Elem>, y: Elem, e: Elem)
    requires Apart(s, [x] + t + [y]) && e !in s
    ensures Apart(s, [x] + (t + [e]) + [y])
  {
    var u, v := [x] + t + [y], [x] + (t + [e]) + [y];
    forall i, j | 0 <= i < |s| && 0 <= j < |v|
      ensures s[i] != v[j]
    {
      assert s[i] in s;
      assert v[j] == if j <= |t| then u[j] else if j == |t| + 1 then e else u[j - 1];
    }
  }

  /** Takes the element at position `k` out of the list and gives it to the duplicates. */
  method Discard(list: List, duplicates: List?, e: Elem, ghost k: nat)
    requires Separate(list, duplicates) && k < |list.elems| && list.elems[k] == e
    modifies list, duplicates, Footprint(list, duplicates)
    ensures list.Valid() && Separate(list, duplicates)
    ensures list.elems == old(list.elems)[..k] + old(list.elems)[k + 1..]
    ensures Footprint(list, duplicates) <= old(Footprint(list, duplicates))
    ensures duplicates != null ==> duplicates.elems == old(duplicates.elems) + [e]
  {
    hide Listed, Apart;
    assert list.Nodes()[k + 1] == e;
    TakenInside(list.head, list.elems, list.tail, k);
    if duplicates != null {
      ApartWithout(list.Nodes(), k + 1, duplicates.Nodes());
      ApartMembers(list.Nodes(), duplicates.Nodes());
      assert list.Nodes()[k] in list.Nodes() && list.Nodes()[k + 2] in list.Nodes();
    }
    var _ := list.RemoveAt(e, k);
    if duplicates != null {
      ApartMembers(list.Nodes(), duplicates.Nodes());
      assert duplicates.tail in duplicates.Nodes() && duplicates.Nodes()[|duplicates.elems|] in duplicates.Nodes();
      ApartWith(list.Nodes(), duplicates.head, duplicates.elems, duplicates.tail, e);
      duplicates.PushBack(e);
    }
  }

  /** What is left when the element after the kept ones goes, and when it stays. */
  lemma NextGoes(f: seq<Elem>, rest: seq<Elem>)
    requires rest != []
    ensures |f| < |f + rest| && (f + rest)[|f|] == rest[0]
    ensures (f + rest)[..|f|] + (f + rest)[|f| + 1..] == f + rest[1..]
  {
  }

  lemma NextStays(f: seq<Elem>, rest: seq<Elem>)
    requires rest != []
    ensures f + rest == (f + [rest[0]]) + rest[1..]
  {
  }

  lemma AtEndOf(x: Elem, f: seq<Elem>, rest: seq<Elem>, y: Elem)
    requires f != []
    ensures var u := [x] + (f + rest) + [y];
            |f| + 1 < |u| && u[|f|] == f[|f| - 1] && u[|f| + 1] == (rest + [y])[0]
  {
  }

  /** The body of the loop of `list_unique`, and the look ahead that follows it. */
  method UniqueStep(list: List, duplicates: List?, less: Less, elem: Elem, next: Elem,
                    ghost f: seq<Elem>, ghost rest: seq<Elem>)
    returns (elem': Elem, next': Elem)
    requires Separate(list, duplicates) && list.elems == f + rest
    requires f != [] && rest != [] && elem == f[|f| - 1] && next == rest[0]
    modifies list, duplicates, Footprint(list, duplicates)
    ensures list.Valid() && Separate(list, duplicates)
    ensures Footprint(list, duplicates) <= old(Footprint(list, duplicates))
    ensures var f' := if Equal(less, elem.item, next.item) then f else f + [next];
            list.elems == f' + rest[1..] && elem' == f'[|f'| - 1]
    ensures next' == (rest[1..] + [list.tail])[0]
    ensures duplicates != null ==>
              duplicates.elems == old(duplicates.elems) + if Equal(less, elem.item, next.item) then [next] else []
  {
    hide Listed, Apart, Footprint;
    elem' := elem;
    if !less(elem.item, next.item) && !less(next.item, elem.item) {
      NextGoes(f, rest);
      Discard(list, duplicates, next, |f|);
      AtEndOf(list.head, f, rest[1..], list.tail);
      next' := Next(elem', list.Nodes(), |f|);
    } else {
      elem' := next;
      NextStays(f, rest);
      AtEndOf(list.head, f + [next], rest[1..], list.tail);
      next' := Next(elem', list.Nodes(), |f| + 1);
    }
  }

  /** The state of `list_unique` when the first `m` elements are done: `f` of them are kept, `r` are not. */
  ghost predicate UniqueUpTo(less: Less, s: seq<Elem>, m: nat, f: seq<Elem>, r: seq<Elem>, elem: Elem) {
    && 1 <= m <= |s|
    && f == Firsts(less, s[..m]) && r == Repeats(less, s[..m])
    && f != [] && elem == f[|f| - 1] && Equal(less, elem.item, s[m - 1].item)
  }

  lemma UniqueStart(less: Less, s: seq<Elem>)
    requires StrictWeakOrder(less) && s != []
    ensures UniqueUpTo(less, s, 1, s[..1], [], s[0]) && s == s[..1] + s[1..]
  {
  }

  lemma UniqueAdvance(less: Less, s: seq<Elem>, m: nat, f: seq<Elem>, r: seq<Elem>, elem: Elem)
    requires StrictWeakOrder(less) && UniqueUpTo(less, s, m, f, r, elem) && m < |s|
    ensures f != [] && elem == f[|f| - 1] && s[m..] != [] && s[m..][1..] == s[m + 1..]
    ensures Equal(less, elem.item, s[m].item) ==> UniqueUpTo(less, s, m + 1, f, r + [s[m]], elem)
    ensures !Equal(less, elem.item, s[m].item) ==> UniqueUpTo(less, s, m + 1, f + [s[m]], r, s[m])
  {
    FirstsOfNext(less, s, m);
    EqualToBoth(less, elem.item, s[m - 1].item, s[m].item);
  }

  lemma UniqueEnd(less: Less, s: seq<Elem>, m: nat, f: seq<Elem>, r: seq<Elem>, elem: Elem)
    requires UniqueUpTo(less, s, m, f, r, elem) && s[m..] == []
    ensures f + s[m..] == f == Firsts(less, s) && r == Repeats(less, s)
  {
    assert s[..m] == s;
  }

  lemma AtTail(list: List, f: seq<Elem>, rest: seq<Elem>)
    requires list.Valid() && list.elems == f + rest && (rest + [list.tail])[0] == list.tail
    ensures rest == []
  {
    assert list.Nodes()[|f| + 1] == (rest + [list.tail])[0];
    SamePlace(list.Nodes(), |f| + 1, |list.elems| + 1);
  }

  /** The loop of `list_unique`, which compares each element with the last one that is kept. */
  method UniqueLoop(list: List, duplicates: List?, less: Less, first: Elem, second: Elem, ghost s: seq<Elem>)
    requires Separate(list, duplicates) && StrictWeakOrder(less) && list.Valid() && list.elems == s != []
    requires first == s[0] && second == (s[1..] + [list.tail])[0]
    modifies list, duplicates, Footprint(list, duplicates)
    ensures list.Valid() && Separate(list, duplicates) && list.elems == Firsts(less, s)
    ensures duplicates != null ==> duplicates.elems == old(duplicates.elems) + Repeats(less, s)
  {
    hide Firsts, Repeats, Listed, Footprint, Separate, StrictWeakOrder, UniqueUpTo;
    ghost var m, own := 1, Footprint(list, duplicates);
    ghost var f, r := s[..1], [];
    var elem, next := first, second;
    UniqueStart(less, s);
    while next != list.tail
      invariant list.Valid() && Separate(list, duplicates) && Footprint(list, duplicates) <= own
      invariant m <= |s| && UniqueUpTo(less, s, m, f, r, elem)
      invariant list.elems == f + s[m..] && next == (s[m..] + [list.tail])[0]
      invariant duplicates != null ==> duplicates.elems == old(duplicates.elems) + r
      decreases |s| - m
    {
      UniqueAdvance(less, s, m, f, r, elem);
      ghost var equal, kept := Equal(less, elem.item, next.item), f;
      f, r := if equal then f else f + [next], if equal then r + [next] else r;
      elem, next := UniqueStep(list, duplicates, less, elem, next, kept, s[m..]);
      m := m + 1;
    }
    AtTail(list, f, s[m..]);
    UniqueEnd(less, s, m, f, r, elem);
  }

  /** `list_unique`: the repeats go to the end of the list of duplicates, if there is one. */
  method Unique(list: List, duplicates: List?, less: Less)
    requires list.Valid() && StrictWeakOrder(less)
    requires duplicates != null ==> duplicates != list && duplicates.Valid() && Apart(list.Nodes(), duplicates.Nodes())
    modifies list, duplicates, Footprint(list, duplicates)
    ensures list.Valid() && Separate(list, duplicates) && list.elems == Firsts(less, old(list.elems))
    ensures duplicates != null ==> duplicates.elems == old(duplicates.elems) + Repeats(less, old(list.elems))
  {
    hide Listed, Apart, Footprint, Firsts, Repeats, StrictWeakOrder;
    var empty := list.IsEmpty();
    if empty {
      UniqueShort(less, list.elems);
    } else {
      ghost var s := list.elems;
      var elem := list.Begin();
      var next := Next(elem, list.Nodes(), 1);
      SecondOf(list.head, s, list.tail);
      UniqueLoop(list, duplicates, less, elem, next, s);
    }
  }

  lemma SecondOf(x: Elem, s: seq<Elem>, y: Elem)
    requires s != []
    ensures var u := [x] + s + [y]; u[1] == s[0] && u[2] == (s[1..] + [y])[0]
  {
  }
}
