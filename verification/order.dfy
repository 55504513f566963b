/** List elements and the orders that `list.c` compares them by. */
module Elements {
  /** The structure that a list element is embedded in. */
  type Item(0, ==, !new)

  /** `struct list_elem`, together with the structure that `list_entry` would find around it. */
  class Elem {
    var prev: Elem?
    var next: Elem?
    const item: Item

    constructor (item: Item)
      ensures this.item == item
    {
      this.item := item;
    }

    /** A list header, which is embedded in no item. */
    constructor Header()
    {
    }
  }
}

/** Sequences of elements under a strict weak order. */
module Order {
  import opened Elements

  type Less = (Item, Item) -> bool

  ghost predicate StrictWeakOrder(less: Less) {
    && (forall a, b {:trigger less(a, b)} :: less(a, b) ==> !less(b, a))
    && (forall a, b, c {:trigger less(a, b), less(b, c)} :: !less(a, b) && !less(b, c) ==> !less(a, c))
  }

  /** Neither element is less than the other: `list.c` calls such elements equal. */
  predicate Equal(less: Less, a: Item, b: Item) {
    !less(a, b) && !less(b, a)
  }

  ghost predicate Sorted(less: Less, s: seq<Elem>) {
    forall i, j :: 0 <= i < j < |s| ==> !less(s[j].item, s[i].item)
  }

  /** The elements of `s` that are equal to `c`, in the order of `s`. */
  ghost function Class(less: Less, c: Item, s: seq<Elem>): seq<Elem> {
    if s == [] then []
    else (if Equal(less, c, s[0].item) then [s[0]] else []) + Class(less, c, s[1..])
  }

  /** `s` and `t` list every class of equal elements in the same order: they are
      permutations of each other that keep equal elements in their relative order. */
  ghost predicate SameClasses(less: Less, s: seq<Elem>, t: seq<Elem>) {
    forall c :: Class(less, c, s) == Class(less, c, t)
  }
}

/** Facts about `Order` that the sorting and uniqueness proofs share. */
module OrderFacts {
  import opened Elements
  import opened Order

  /** Comparing by an integer is such an order, and then elements are equal that have the same integer. */
  lemma ByKeyIsOrder(key: Item -> int)
    ensures var less := (a: Item, b: Item) => key(a) < key(b);
            StrictWeakOrder(less) && forall a, b :: Equal(less, a, b) <==> key(a) == key(b)
  {
  }

  lemma ClassOfCons(less: Less, c: Item, e: Elem, s: seq<Elem>)
    ensures Class(less, c, [e] + s) == (if Equal(less, c, e.item) then [e] else []) + Class(less, c, s)
  {
    hide Equal;
    assert ([e] + s)[1..] == s;
  }

  lemma HeadAndRest(s: seq<Elem>)
    requires s != []
    ensures s == [s[0]] + s[1..]
    ensures multiset(s) == multiset{s[0]} + multiset(s[1..])
  {
    assert s == [s[0]] + s[1..];
  }

  lemma Concat3(a: seq<Elem>, b: seq<Elem>, c: seq<Elem>)
    ensures (a + b) + c == a + (b + c)
    ensures [] + c == c
  {
  }

  lemma {:induction false} ClassOfConcat(less: Less, c: Item, s: seq<Elem>, t: seq<Elem>)
    ensures Class(less, c, s + t) == Class(less, c, s) + Class(less, c, t)
  {
    hide Class, Equal;
    if s == [] {
      EmptyClass(less, c);
      Concat3([], t, t);
      Concat3([], [], Class(less, c, t));
    } else {
      var e, r := s[0], s[1..];
      HeadAndRest(s);
      ClassOfConcat(less, c, r, t);
      ClassOfCons(less, c, e, r);
      ClassOfCons(less, c, e, r + t);
      Concat3([e], r, t);
      Concat3(if Equal(less, c, e.item) then [e] else [], Class(less, c, r), Class(less, c, t));
    }
  }

  lemma EmptyClass(less: Less, c: Item)
    ensures Class(less, c, []) == []
  {
  }

  lemma {:induction false} ClassMembers(less: Less, c: Item, s: seq<Elem>, e: Elem)
    ensures e in Class(less, c, s) <==> e in s && Equal(less, c, e.item)
  {
    if s != [] {
      ClassMembers(less, c, s[1..], e);
      assert e in s <==> e == s[0] || e in s[1..];
    }
  }

  lemma {:induction false} ClassCount(less: Less, s: seq<Elem>, e: Elem)
    requires StrictWeakOrder(less)
    ensures multiset(Class(less, e.item, s))[e] == multiset(s)[e]
  {
    if s != [] {
      ClassCount(less, s[1..], e);
      assert s == [s[0]] + s[1..];
    }
  }

  /** Lists with the same classes hold the same elements, each as often. */
  lemma SameClassesIsPermutation(less: Less, s: seq<Elem>, t: seq<Elem>)
    requires StrictWeakOrder(less) && SameClasses(less, s, t)
    ensures multiset(s) == multiset(t) && |s| == |t|
  {
    forall e: Elem
      ensures multiset(s)[e] == multiset(t)[e]
    {
      ClassCount(less, s, e);
      ClassCount(less, t, e);
    }
    assert multiset(s) == multiset(t);
    assert |multiset(s)| == |s| && |multiset(t)| == |t|;
  }

  lemma SameClassesConcat(less: Less, s: seq<Elem>, s': seq<Elem>, t: seq<Elem>, t': seq<Elem>)
    requires SameClasses(less, s, s') && SameClasses(less, t, t')
    ensures SameClasses(less, s + t, s' + t')
  {
    forall c
      ensures Class(less, c, s + t) == Class(less, c, s' + t')
    {
      ClassOfConcat(less, c, s, t);
      ClassOfConcat(less, c, s', t');
    }
  }

  lemma SameClassesDropHead(less: Less, s: seq<Elem>, t: seq<Elem>)
    requires s != [] && t != [] && s[0] == t[0] && SameClasses(less, s, t)
    ensures SameClasses(less, s[1..], t[1..])
  {
    forall c
      ensures Class(less, c, s[1..]) == Class(less, c, t[1..])
    {
      var first := if Equal(less, c, s[0].item) then [s[0]] else [];
      assert Class(less, c, s) == first + Class(less, c, s[1..]);
      assert Class(less, c, t) == first + Class(less, c, t[1..]);
      assert Class(less, c, s[1..]) == Class(less, c, s)[|first|..];
    }
  }

  /** Lists with the same classes that are sorted have the same first element. */
  lemma SameFirst(less: Less, s: seq<Elem>, t: seq<Elem>)
    requires StrictWeakOrder(less) && s != [] && t != []
    requires Sorted(less, s) && Sorted(less, t) && SameClasses(less, s, t)
    ensures s[0] == t[0]
  {
    SameClassesIsPermutation(less, s, t);
    var a, b := s[0], t[0];
    assert a in multiset(t) && b in multiset(s);
    assert !less(a.item, b.item) && !less(b.item, a.item);
    assert Class(less, a.item, s)[0] == a;
    assert Class(less, a.item, t)[0] == b;
  }

  lemma SortedRest(less: Less, s: seq<Elem>)
    requires Sorted(less, s) && s != []
    ensures Sorted(less, s[1..])
  {
  }

  /** A sorted list has only one order that is stable with respect to a given list. */
  lemma {:induction false} StableSortIsUnique(less: Less, s: seq<Elem>, t: seq<Elem>)
    requires StrictWeakOrder(less)
    requires Sorted(less, s) && Sorted(less, t) && SameClasses(less, s, t)
    ensures s == t
  {
    hide StrictWeakOrder, Sorted, SameClasses;
    SameClassesIsPermutation(less, s, t);
    if s != [] {
      SameFirst(less, s, t);
      SortedRest(less, s);
      SortedRest(less, t);
      SameClassesDropHead(less, s, t);
      StableSortIsUnique(less, s[1..], t[1..]);
      HeadAndRest(s);
      HeadAndRest(t);
    }
  }
}
