/** What the operations of `hash.c` compute, as functions on the chains of a table, and the
    finite map that they implement. */
module HashTheory {
  import opened Elements
  import opened Bits
  import opened Wrappers

  /** The data that the callbacks may look at, and that an action may change. */
  type Aux(!new)

  /** The callbacks of a table and their data. */
  datatype Env = Env(hash: (Item, Aux) -> nat, less: (Item, Item, Aux) -> bool, aux: Aux) {
    predicate Same(a: Item, b: Item) {
      !less(a, b, aux) && !less(b, a, aux)
    }

    /** What the hash table relies on: "same" is an equivalence, and the hash respects it. */
    ghost predicate Compatible() {
      && (forall a {:trigger Same(a, a)} :: Same(a, a))
      && (forall a, b, c {:trigger Same(a, b), Same(b, c)} :: Same(a, b) && Same(b, c) ==> Same(a, c))
      && (forall a, b {:trigger Same(a, b)} :: Same(a, b) ==> hash(a, aux) == hash(b, aux))
    }

    /** The index of the bucket, among `n`, that `find_bucket` returns. */
    function Bucket(a: Item, n: nat): nat
      requires n > 0
    {
      And(hash(a, aux), n - 1)
    }
  }

  type Chains = seq<seq<Elem>>

  ghost predicate IsPow2(n: nat) {
    n > 0 && FloorPow2(n) == n
  }

  lemma BucketInRange(env: Env, a: Item, n: nat)
    requires IsPow2(n)
    ensures env.Bucket(a, n) < n
  {
    var k := FloorPow2Spec(n);
    var q := AndMask(env.hash(a, env.aux), k);
  }

  // ---------- The elements of a table ----------

  ghost function All(c: Chains): multiset<Elem> {
    if c == [] then multiset{} else multiset(c[0]) + All(c[1..])
  }

  ghost function Flat(c: Chains): seq<Elem> {
    if c == [] then [] else c[0] + Flat(c[1..])
  }

  lemma {:induction false} FlatIsAll(c: Chains)
    ensures multiset(Flat(c)) == All(c)
  {
    if c != [] {
      FlatIsAll(c[1..]);
    }
  }

  lemma {:induction false} ChainIsInAll(c: Chains, b: nat)
    requires b < |c|
    ensures multiset(c[b]) <= All(c)
    ensures forall e :: e in c[b] ==> e in All(c)
  {
    if b > 0 {
      ChainIsInAll(c[1..], b - 1);
    }
  }

  lemma {:induction false} ChainOf(c: Chains, e: Elem) returns (b: nat)
    requires e in All(c)
    ensures b < |c| && e in c[b]
  {
    if e in c[0] {
      b := 0;
    } else {
      b := ChainOf(c[1..], e);
      b := b + 1;
    }
  }

  /** What a change of one chain does to the first chain and to the others. */
  lemma UpdateParts(c: Chains, b: nat, x: seq<Elem>)
    requires b < |c|
    ensures c[b := x] != [] && c[b := x][0] == if b == 0 then x else c[0]
    ensures c[b := x][1..] == if b == 0 then c[1..] else c[1..][b - 1 := x]
    ensures b > 0 ==> c[1..][b - 1] == c[b]
  {
  }

  lemma FirstChain(c: Chains)
    requires c != []
    ensures All(c) == multiset(c[0]) + All(c[1..]) && Flat(c) == c[0] + Flat(c[1..])
  {
  }

  lemma WithoutOne(s: seq<Elem>, k: nat)
    requires k < |s|
    ensures multiset(s) == multiset(Without(s, k)) + multiset{s[k]}
  {
    assert s == s[..k] + [s[k]] + s[k + 1..];
  }

  lemma WithOne(s: seq<Elem>, e: Elem)
    ensures multiset([e] + s) == multiset(s) + multiset{e}
  {
  }

  lemma {:induction false} OneMore(c: Chains, b: nat, e: Elem)
    requires b < |c|
    ensures All(c[b := [e] + c[b]]) == All(c) + multiset{e}
  {
    hide All, Flat;
    var x := [e] + c[b];
    UpdateParts(c, b, x);
    FirstChain(c);
    FirstChain(c[b := x]);
    if b == 0 {
      WithOne(c[0], e);
    } else {
      OneMore(c[1..], b - 1, e);
    }
  }

  lemma {:induction false} OneLess(c: Chains, b: nat, k: nat)
    requires b < |c| && k < |c[b]|
    ensures All(c) == All(c[b := Without(c[b], k)]) + multiset{c[b][k]}
  {
    hide All, Flat, Without;
    var x := Without(c[b], k);
    UpdateParts(c, b, x);
    FirstChain(c);
    FirstChain(c[b := x]);
    if b == 0 {
      WithoutOne(c[0], k);
    } else {
      OneLess(c[1..], b - 1, k);
    }
  }

  // ---------- Chain operations ----------

  /** The position of the first element that is the same as `a`, or the length of the chain. */
  ghost function PlaceIn(env: Env, chain: seq<Elem>, a: Item): (k: nat)
    ensures k <= |chain|
  {
    if chain == [] || env.Same(chain[0].item, a) then 0 else 1 + PlaceIn(env, chain[1..], a)
  }

  lemma {:induction false} PlaceInIsFirst(env: Env, chain: seq<Elem>, a: Item)
    ensures var k := PlaceIn(env, chain, a);
            && (k < |chain| ==> env.Same(chain[k].item, a))
            && (forall i :: 0 <= i < k ==> !env.Same(chain[i].item, a))
  {
    if chain != [] && !env.Same(chain[0].item, a) {
      PlaceInIsFirst(env, chain[1..], a);
    }
  }

  ghost function FindIn(env: Env, chain: seq<Elem>, a: Item): Option<Elem> {
    var k := PlaceIn(env, chain, a);
    if k < |chain| then Some(chain[k]) else None
  }

  ghost function Without(chain: seq<Elem>, k: nat): seq<Elem>
    requires k < |chain|
  {
    chain[..k] + chain[k + 1..]
  }

  // ---------- Table operations ----------

  datatype Table = Table(chains: Chains, cnt: nat)

  ghost predicate Shape(t: Table) {
    && 4 <= |t.chains| && IsPow2(|t.chains|)
    && t.cnt == |All(t.chains)|
  }

  /** The bucket count that `rehash` aims at. */
  ghost function IdealBuckets(cnt: nat): (n: nat)
    ensures 4 <= n && IsPow2(n)
    ensures n <= (if cnt / 2 < 4 then 4 else cnt / 2) < 2 * n
  {
    var m := if cnt / 2 < 4 then 4 else cnt / 2;
    IdealBucketsProof(m);
    FloorPow2(m)
  }

  lemma IdealBucketsProof(m: nat)
    requires m >= 4
    ensures 4 <= FloorPow2(m) <= m < 2 * FloorPow2(m) && IsPow2(FloorPow2(m))
  {
    var k := FloorPow2Spec(m);
    PowersAreFixed(k);
    assert Pow2(0) == 1 && Pow2(1) == 2;
    if k >= 2 {
      assert Pow2(k) == 4 * Pow2(k - 2);
    }
  }

  ghost function Empty(n: nat): (c: Chains)
    ensures |c| == n && (forall b :: 0 <= b < n ==> c[b] == []) && All(c) == multiset{}
  {
    EmptyHasNone(n);
    seq(n, _ => [])
  }

  lemma {:induction false} EmptyHasNone(n: nat)
    ensures All(seq(n, _ => [])) == multiset{}
  {
    if n > 0 {
      EmptyHasNone(n - 1);
      assert seq(n, _ => [])[1..] == seq<seq<Elem>>(n - 1, _ => []);
    }
  }

  lemma {:induction false} NoneInEmpty(c: Chains)
    requires forall b :: 0 <= b < |c| ==> c[b] == []
    ensures All(c) == multiset{} && Flat(c) == []
  {
    if c != [] {
      NoneInEmpty(c[1..]);
    }
  }

  /** `e` pushed to the front of its bucket. */
  ghost function Push(env: Env, c: Chains, e: Elem): (d: Chains)
    requires IsPow2(|c|)
    ensures |d| == |c|
  {
    BucketInRange(env, e.item, |c|);
    var b := env.Bucket(e.item, |c|);
    c[b := [e] + c[b]]
  }

  /** The elements of `s`, in this order, each pushed to the front of its bucket. */
  ghost function Distribute(env: Env, s: seq<Elem>, c: Chains): (d: Chains)
    requires IsPow2(|c|)
    ensures |d| == |c|
  {
    if s == [] then c else Distribute(env, s[1..], Push(env, c, s[0]))
  }

  /** `rehash`, which does nothing when it cannot allocate the new buckets. */
  ghost function Rehash(env: Env, t: Table, alloc: bool): Table {
    var n := IdealBuckets(t.cnt);
    if n == |t.chains| || !alloc then t
    else Table(Distribute(env, Flat(t.chains), Empty(n)), t.cnt)
  }

  ghost function Find(env: Env, t: Table, a: Item): Option<Elem>
    requires IsPow2(|t.chains|)
  {
    BucketInRange(env, a, |t.chains|);
    FindIn(env, t.chains[env.Bucket(a, |t.chains|)], a)
  }

  /** `insert_elem`. */
  ghost function InsertElem(env: Env, t: Table, e: Elem): (t': Table)
    requires IsPow2(|t.chains|)
    ensures |t'.chains| == |t.chains|
  {
    Table(Push(env, t.chains, e), t.cnt + 1)
  }

  lemma FoundIsCounted(env: Env, t: Table, a: Item)
    requires Shape(t) && Find(env, t, a).Some?
    ensures t.cnt > 0 && Find(env, t, a).value in All(t.chains)
  {
    BucketInRange(env, a, |t.chains|);
    var b := env.Bucket(a, |t.chains|);
    ChainIsInAll(t.chains, b);
  }

  /** `remove_elem` of the element that is found for `a`. */
  ghost function RemoveElem(env: Env, t: Table, a: Item): (t': Table)
    requires Shape(t) && Find(env, t, a).Some?
    ensures |t'.chains| == |t.chains|
  {
    FoundIsCounted(env, t, a);
    BucketInRange(env, a, |t.chains|);
    var b := env.Bucket(a, |t.chains|);
    Table(t.chains[b := Without(t.chains[b], PlaceIn(env, t.chains[b], a))], t.cnt - 1)
  }

  ghost function Insert(env: Env, t: Table, e: Elem, alloc: bool): Table
    requires Shape(t)
  {
    Rehash(env, if Find(env, t, e.item).None? then InsertElem(env, t, e) else t, alloc)
  }

  ghost function RemoveIfFound(env: Env, t: Table, a: Item): (t': Table)
    requires Shape(t)
    ensures |t'.chains| == |t.chains|
  {
    if Find(env, t, a).None? then t else RemoveElem(env, t, a)
  }

  ghost function Replace(env: Env, t: Table, e: Elem, alloc: bool): Table
    requires Shape(t)
  {
    Rehash(env, InsertElem(env, RemoveIfFound(env, t, e.item), e), alloc)
  }

  ghost function Delete(env: Env, t: Table, a: Item, alloc: bool): Table
    requires Shape(t)
  {
    if Find(env, t, a).None? then t else Rehash(env, RemoveElem(env, t, a), alloc)
  }

  ghost function Clear(t: Table): Table {
    Table(Empty(|t.chains|), 0)
  }

  // ---------- Shape: counts and bucket counts ----------

  lemma HeadAndTail<T>(s: seq<T>)
    requires s != []
    ensures multiset(s) == multiset{s[0]} + multiset(s[1..])
  {
    assert s == [s[0]] + s[1..];
  }

  lemma PushAddsOne(env: Env, c: Chains, e: Elem)
    requires IsPow2(|c|)
    ensures All(Push(env, c, e)) == All(c) + multiset{e}
  {
    BucketInRange(env, e.item, |c|);
    OneMore(c, env.Bucket(e.item, |c|), e);
  }

  lemma {:induction false} DistributeKeepsAll(env: Env, s: seq<Elem>, c: Chains)
    requires IsPow2(|c|)
    ensures All(Distribute(env, s, c)) == All(c) + multiset(s)
  {
    if s != [] {
      PushAddsOne(env, c, s[0]);
      DistributeKeepsAll(env, s[1..], Push(env, c, s[0]));
      HeadAndTail(s);
    }
  }

  /** A new bucket array holds the same elements, and as many of them. */
  lemma RehashKeepsAll(env: Env, t: Table, alloc: bool)
    requires Shape(t)
    ensures Shape(Rehash(env, t, alloc))
    ensures All(Rehash(env, t, alloc).chains) == All(t.chains) && Rehash(env, t, alloc).cnt == t.cnt
  {
    DistributeKeepsAll(env, Flat(t.chains), Empty(IdealBuckets(t.cnt)));
    FlatIsAll(t.chains);
  }

  lemma InsertElemAddsOne(env: Env, t: Table, e: Elem)
    requires Shape(t)
    ensures Shape(InsertElem(env, t, e))
    ensures All(InsertElem(env, t, e).chains) == All(t.chains) + multiset{e}
  {
    PushAddsOne(env, t.chains, e);
  }

  lemma RemoveElemTakesOne(env: Env, t: Table, a: Item)
    requires Shape(t) && Find(env, t, a).Some?
    ensures Find(env, t, a).value in All(t.chains)
    ensures Shape(RemoveElem(env, t, a))
    ensures All(t.chains) == All(RemoveElem(env, t, a).chains) + multiset{Find(env, t, a).value}
  {
    FoundIsCounted(env, t, a);
    BucketInRange(env, a, |t.chains|);
    var b := env.Bucket(a, |t.chains|);
    OneLess(t.chains, b, PlaceIn(env, t.chains[b], a));
  }

  /** A table is at its ideal size when a rehash has nothing left to do. */
  ghost predicate Ideal(t: Table) {
    |t.chains| == IdealBuckets(t.cnt)
  }

  /** After an insertion, a replacement or an effective deletion that could allocate, the
      bucket count is the largest power of two not above max(4, n/2), and so there are
      fewer than four elements per bucket on average. */
  lemma IdealAfterChange(env: Env, t: Table, e: Elem)
    requires Shape(t)
    ensures Ideal(Insert(env, t, e, true)) && Ideal(Replace(env, t, e, true))
    ensures Find(env, t, e.item).Some? ==> Ideal(Delete(env, t, e.item, true))
  {
  }

  /** The ideal bucket count is the largest power of two that is not above max(4, n/2). */
  lemma IdealIsLargest(t: Table, k: nat)
    requires Ideal(t)
    ensures var m := if t.cnt / 2 < 4 then 4 else t.cnt / 2;
            IsPow2(|t.chains|) && |t.chains| <= m && (Pow2(k) <= m ==> Pow2(k) <= |t.chains|)
  {
    var m := if t.cnt / 2 < 4 then 4 else t.cnt / 2;
    var j := FloorPow2Spec(m);
    if k > j + 1 {
      Pow2Grows(j + 1, k);
    } else if k < j {
      Pow2Grows(k, j);
    }
  }

  lemma IdealIsLoaded(t: Table)
    requires Ideal(t)
    ensures t.cnt <= 4 * |t.chains| - 1
    ensures |t.chains| > 4 ==> 2 * |t.chains| <= t.cnt
  {
  }

  // ---------- Placement ----------

  /** Every element is in the bucket that its hash selects. */
  ghost predicate Placed(env: Env, c: Chains)
    requires IsPow2(|c|)
  {
    forall b, e {:trigger e in c[b]} :: 0 <= b < |c| && e in c[b] ==> env.Bucket(e.item, |c|) == b
  }

  lemma {:induction false} DistributePlaces(env: Env, s: seq<Elem>, c: Chains)
    requires IsPow2(|c|) && Placed(env, c)
    ensures Placed(env, Distribute(env, s, c))
  {
    if s != [] {
      DistributePlaces(env, s[1..], Push(env, c, s[0]));
    }
  }

  /** A rehash that installs new buckets puts every element where it belongs, wherever it was. */
  lemma RehashPlaces(env: Env, t: Table, alloc: bool)
    requires Shape(t)
    requires Placed(env, t.chains) || (alloc && !Ideal(t))
    ensures Placed(env, Rehash(env, t, alloc).chains)
  {
    if alloc && !Ideal(t) {
      DistributePlaces(env, Flat(t.chains), Empty(IdealBuckets(t.cnt)));
    }
  }

  // ---------- The order of the chains ----------

  /** The elements of `s` whose bucket is `b`, the last one first. */
  ghost function LastFirst(env: Env, s: seq<Elem>, n: nat, b: nat): seq<Elem>
    requires n > 0
  {
    if s == [] then []
    else LastFirst(env, s[1..], n, b) + if env.Bucket(s[0].item, n) == b then [s[0]] else []
  }

  lemma {:induction false} DistributeDoes(env: Env, s: seq<Elem>, c: Chains, b: nat)
    requires IsPow2(|c|) && b < |c|
    ensures Distribute(env, s, c)[b] == LastFirst(env, s, |c|, b) + c[b]
    decreases |s|
  {
    hide Push, Env.Bucket;
    if s != [] {
      var d := Push(env, c, s[0]);
      PushDoes(env, c, s[0], b);
      DistributeDoes(env, s[1..], d, b);
      var x, y := LastFirst(env, s[1..], |c|, b), if env.Bucket(s[0].item, |c|) == b then [s[0]] else [];
      assert x + (y + c[b]) == (x + y) + c[b];
    }
  }

  lemma PushDoes(env: Env, c: Chains, e: Elem, b: nat)
    requires IsPow2(|c|) && b < |c|
    ensures Push(env, c, e)[b] == (if env.Bucket(e.item, |c|) == b then [e] else []) + c[b]
  {
    BucketInRange(env, e.item, |c|);
  }

  /** A rehash leaves a table alone that has the ideal bucket count, and also when it cannot allocate. Otherwise every
      new bucket holds its elements in the opposite of their old order. */
  lemma RehashDoes(env: Env, t: Table, alloc: bool, b: nat)
    requires Shape(t)
    ensures Ideal(t) || !alloc ==> Rehash(env, t, alloc) == t
    ensures var c := Rehash(env, t, alloc).chains;
            !Ideal(t) && alloc ==>
              && Ideal(Rehash(env, t, alloc)) && Rehash(env, t, alloc).cnt == t.cnt
              && (b < |c| ==> c[b] == LastFirst(env, Flat(t.chains), |c|, b))
  {
    var n := IdealBuckets(t.cnt);
    if b < n {
      DistributeDoes(env, Flat(t.chains), Empty(n), b);
      hide LastFirst, Flat, Env.Bucket;
      var x := LastFirst(env, Flat(t.chains), n, b);
      assert x + [] == x;
    }
  }

  /** The remainder is the bucket index that the mask gives. */
  lemma BucketIsRemainder(env: Env, a: Item, n: nat)
    requires IsPow2(n)
    ensures env.Bucket(a, n) == env.hash(a, env.aux) % n
  {
    var k := FloorPow2Spec(n);
    PowersAreFixed(k);
    var q := AndMask(env.hash(a, env.aux), k);
    QuotientIs(env.hash(a, env.aux), q, n, env.Bucket(a, n));
  }

  /** An insertion puts the element first in its bucket, unless the search finds one, and then rehashes; a search looks
      at the bucket of the hash only and takes the first element that is the same. */
  lemma InsertDoes(env: Env, t: Table, e: Elem, alloc: bool)
    requires Shape(t)
    ensures var b := env.hash(e.item, env.aux) % |t.chains|; var c := t.chains[b];
            && (forall p :: 0 <= p < |c| && env.Same(c[p].item, e.item)
                            && (forall i :: 0 <= i < p ==> !env.Same(c[i].item, e.item)) ==>
                  && Find(env, t, e.item) == Some(c[p]) && Insert(env, t, e, alloc) == Rehash(env, t, alloc))
            && ((forall p :: 0 <= p < |c| ==> !env.Same(c[p].item, e.item)) ==>
                  && Find(env, t, e.item) == None
                  && Insert(env, t, e, alloc) == Rehash(env, Table(t.chains[b := [e] + c], t.cnt + 1), alloc))
  {
    hide Env.Same, Rehash, Env.Bucket;
    BucketIsRemainder(env, e.item, |t.chains|);
    BucketInRange(env, e.item, |t.chains|);
    PlaceInIsFirst(env, t.chains[env.Bucket(e.item, |t.chains|)], e.item);
  }

  /** A deletion takes out the element that the search finds, which keeps the others of the bucket in their order, and
      then rehashes; a replacement puts the new element first after that. */
  lemma DeleteDoes(env: Env, t: Table, a: Item, p: nat, alloc: bool)
    requires Shape(t)
    ensures var b := env.hash(a, env.aux) % |t.chains|; var c := t.chains[b];
            && (p < |c| && env.Same(c[p].item, a) && (forall i :: 0 <= i < p ==> !env.Same(c[i].item, a)) ==>
                  && t.cnt > 0
                  && var t' := Table(t.chains[b := c[..p] + c[p + 1..]], t.cnt - 1);
                  && Find(env, t, a) == Some(c[p]) && Delete(env, t, a, alloc) == Rehash(env, t', alloc)
                  && forall e: Elem :: e.item == a ==>
                       Replace(env, t, e, alloc)
                       == Rehash(env, Table(t'.chains[b := [e] + t'.chains[b]], t.cnt), alloc))
            && ((forall i :: 0 <= i < |c| ==> !env.Same(c[i].item, a)) ==>
                  && Find(env, t, a) == None && Delete(env, t, a, alloc) == t
                  && forall e: Elem :: e.item == a ==>
                       Replace(env, t, e, alloc) == Rehash(env, Table(t.chains[b := [e] + c], t.cnt + 1), alloc))
  {
    hide Env.Same, Rehash, Env.Bucket;
    BucketIsRemainder(env, a, |t.chains|);
    BucketInRange(env, a, |t.chains|);
    PlaceInIsFirst(env, t.chains[env.Bucket(a, |t.chains|)], a);
    if Find(env, t, a).Some? {
      FoundIsCounted(env, t, a);
    }
  }

  // ---------- The finite map ----------

  /** No two elements are the same, and none is there twice. */
  ghost predicate Unique(env: Env, all: multiset<Elem>) {
    && (forall e :: e in all ==> all[e] == 1)
    && (forall e, f :: e in all && f in all && env.Same(e.item, f.item) ==> e == f)
  }

  ghost predicate WellFormed(env: Env, t: Table) {
    env.Compatible() && Shape(t) && Placed(env, t.chains) && Unique(env, All(t.chains))
  }

  /** The class of the items that are the same as `a`: the key that `a` stands for. */
  ghost function Key(env: Env, a: Item): iset<Item> {
    iset b | env.Same(a, b)
  }

  lemma SameKey(env: Env, a: Item, b: Item)
    requires env.Compatible()
    ensures Key(env, a) == Key(env, b) <==> env.Same(a, b)
  {
    assert b in Key(env, b);
    if env.Same(a, b) {
      assert env.Same(b, a);
      assert forall c :: env.Same(a, c) <==> env.Same(b, c);
    }
  }

  type Dict = map<iset<Item>, Elem>

  ghost function Lookup(m: Dict, k: iset<Item>): Option<Elem> {
    if k in m then Some(m[k]) else None
  }

  /** The elements are exactly the values of `m`, each under its own key. */
  ghost predicate Holds(env: Env, all: multiset<Elem>, m: Dict) {
    && (forall e :: e in all ==> Lookup(m, Key(env, e.item)) == Some(e))
    && (forall k {:trigger m[k]} {:trigger k in m} :: k in m ==> m[k] in all && Key(env, m[k].item) == k)
  }

  ghost predicate Represents(env: Env, t: Table, m: Dict) {
    Holds(env, All(t.chains), m)
  }

  lemma HoldsOneMore(env: Env, all: multiset<Elem>, m: Dict, e: Elem)
    requires Holds(env, all, m) && Key(env, e.item) !in m
    ensures Holds(env, all + multiset{e}, m[Key(env, e.item) := e])
  {
    hide Key;
  }

  lemma HoldsOneLess(env: Env, all: multiset<Elem>, m: Dict, e: Elem)
    requires Holds(env, all + multiset{e}, m) && e !in all
    ensures Holds(env, all, m - {Key(env, e.item)})
  {
    hide Key;
  }

  /** A search in a placed bucket misses nothing. */
  lemma FindIsLookup(env: Env, t: Table, m: Dict, a: Item)
    requires WellFormed(env, t) && Represents(env, t, m)
    ensures Find(env, t, a) == Lookup(m, Key(env, a))
  {
    BucketInRange(env, a, |t.chains|);
    var b := env.Bucket(a, |t.chains|);
    PlaceInIsFirst(env, t.chains[b], a);
    if Key(env, a) in m {
      var e := m[Key(env, a)];
      SameKey(env, e.item, a);
      var b' := ChainOf(t.chains, e);
      assert b' == b;
    }
    if Find(env, t, a).Some? {
      FoundIsCounted(env, t, a);
      SameKey(env, Find(env, t, a).value.item, a);
    }
  }

  lemma InsertElemKeepsForm(env: Env, t: Table, e: Elem)
    requires WellFormed(env, t) && (forall f :: f in All(t.chains) ==> !env.Same(e.item, f.item))
    ensures WellFormed(env, InsertElem(env, t, e))
  {
    hide All, InsertElem, Placed, Shape;
    InsertElemAddsOne(env, t, e);
    InsertElemPlaces(env, t, e);
    SameAsItself(env, e.item);
    UniqueOneMore(env, All(t.chains), e);
  }

  lemma InsertElemPlaces(env: Env, t: Table, e: Elem)
    requires IsPow2(|t.chains|) && Placed(env, t.chains)
    ensures Placed(env, InsertElem(env, t, e).chains)
  {
    BucketInRange(env, e.item, |t.chains|);
  }

  lemma UniqueOneMore(env: Env, all: multiset<Elem>, e: Elem)
    requires env.Compatible() && Unique(env, all) && forall f :: f in all ==> !env.Same(e.item, f.item)
    ensures Unique(env, all + multiset{e})
  {
    SameAsItself(env, e.item);
    assert e !in all;
  }

  lemma SameAsItself(env: Env, a: Item)
    requires env.Compatible()
    ensures env.Same(a, a)
  {
  }

  lemma InsertElemRefines(env: Env, t: Table, m: Dict, e: Elem)
    requires WellFormed(env, t) && Represents(env, t, m) && Key(env, e.item) !in m
    ensures WellFormed(env, InsertElem(env, t, e))
    ensures Represents(env, InsertElem(env, t, e), m[Key(env, e.item) := e])
  {
    forall f | f in All(t.chains)
      ensures !env.Same(e.item, f.item) && Key(env, f.item) != Key(env, e.item)
    {
      SameKey(env, f.item, e.item);
    }
    InsertElemKeepsForm(env, t, e);
    InsertElemAddsOne(env, t, e);
    HoldsOneMore(env, All(t.chains), m, e);
  }

  lemma RemoveElemPlaced(env: Env, t: Table, a: Item)
    requires Shape(t) && Placed(env, t.chains) && Find(env, t, a).Some?
    ensures Placed(env, RemoveElem(env, t, a).chains)
  {
    var c := RemoveElem(env, t, a).chains;
    forall b, e: Elem | 0 <= b < |c| && e in c[b]
      ensures env.Bucket(e.item, |c|) == b
    {
      assert e in t.chains[b];
    }
  }

  lemma RemoveElemKeepsForm(env: Env, t: Table, a: Item)
    requires WellFormed(env, t) && Find(env, t, a).Some?
    ensures WellFormed(env, RemoveElem(env, t, a))
    ensures Find(env, t, a).value !in All(RemoveElem(env, t, a).chains)
  {
    RemoveElemTakesOne(env, t, a);
    RemoveElemPlaced(env, t, a);
    UniqueOneLess(env, All(RemoveElem(env, t, a).chains), Find(env, t, a).value);
  }

  lemma UniqueOneLess(env: Env, all: multiset<Elem>, e: Elem)
    requires Unique(env, all + multiset{e})
    ensures Unique(env, all) && e !in all
  {
    assert (all + multiset{e})[e] == 1;
    forall f | f in all
      ensures all[f] == 1
    {
      assert f in all + multiset{e};
    }
  }

  lemma RemoveElemRefines(env: Env, t: Table, m: Dict, a: Item)
    requires WellFormed(env, t) && Represents(env, t, m) && Find(env, t, a).Some?
    ensures Key(env, a) in m
    ensures WellFormed(env, RemoveElem(env, t, a))
    ensures Represents(env, RemoveElem(env, t, a), m - {Key(env, a)})
  {
    FindIsLookup(env, t, m, a);
    RemoveElemTakesOne(env, t, a);
    RemoveElemKeepsForm(env, t, a);
    HoldsOneLess(env, All(RemoveElem(env, t, a).chains), m, Find(env, t, a).value);
  }

  lemma RehashRefines(env: Env, t: Table, m: Dict, alloc: bool)
    requires WellFormed(env, t) && Represents(env, t, m)
    ensures WellFormed(env, Rehash(env, t, alloc)) && Represents(env, Rehash(env, t, alloc), m)
  {
    RehashKeepsAll(env, t, alloc);
    RehashPlaces(env, t, alloc);
  }

  // ---------- Actions ----------

  /** The data after the action has been applied to the elements of `s` in order. */
  ghost function Fold(action: (Item, Aux) -> Aux, s: seq<Elem>, aux: Aux): Aux {
    if s == [] then aux else Fold(action, s[1..], action(s[0].item, aux))
  }

  /** The callbacks and their data after the action has been applied to all elements of the table. */
  ghost function Applied(env: Env, t: Table, action: (Item, Aux) -> Aux): Env {
    env.(aux := Fold(action, Flat(t.chains), env.aux))
  }

  /** Exactly when a table is still well-formed under other data: the hash still respects sameness, every stored
      element still has its bucket, and no two stored elements have become the same. */
  lemma StillWellFormedIff(env: Env, env': Env, t: Table)
    requires WellFormed(env, t)
    ensures WellFormed(env', t) <==>
            && env'.Compatible()
            && (forall e :: e in All(t.chains) ==> env'.Bucket(e.item, |t.chains|) == env.Bucket(e.item, |t.chains|))
            && (forall e, f :: e in All(t.chains) && f in All(t.chains) && e != f ==> !env'.Same(e.item, f.item))
  {
    hide All, Env.Same, Env.Compatible, Env.Bucket;
    if forall e :: e in All(t.chains) ==> env'.Bucket(e.item, |t.chains|) == env.Bucket(e.item, |t.chains|) {
      forall b, e: Elem | 0 <= b < |t.chains| && e in t.chains[b]
        ensures env'.Bucket(e.item, |t.chains|) == b
      {
        ChainIsInAll(t.chains, b);
      }
    }
    if Placed(env', t.chains) {
      forall e | e in All(t.chains)
        ensures env'.Bucket(e.item, |t.chains|) == env.Bucket(e.item, |t.chains|)
      {
        var b := ChainOf(t.chains, e);
        assert e in t.chains[b];
      }
    }
  }

  /** Exactly when it still represents the same map: every stored element still has its key. */
  lemma StillRepresentsIff(env: Env, env': Env, t: Table, m: Dict)
    requires Represents(env, t, m)
    ensures Represents(env', t, m) <==>
            forall e :: e in All(t.chains) ==> Key(env', e.item) == Key(env, e.item)
  {
    hide Key;
    if forall e :: e in All(t.chains) ==> Key(env', e.item) == Key(env, e.item) {
      forall k | k in m
        ensures m[k] in All(t.chains) && Key(env', m[k].item) == k
      {
      }
    }
    if Represents(env', t, m) {
      forall e | e in All(t.chains)
        ensures Key(env', e.item) == Key(env, e.item)
      {
        var k := Key(env, e.item);
        assert Lookup(m, k) == Some(e);
        assert k in m && m[k] == e;
      }
    }
  }

  /** When `hash_apply` leaves a well-formed table well-formed: a matter of the stored elements and of the data
      before and after, and of nothing else. */
  lemma ApplyKeepsFormIff(env: Env, t: Table, action: (Item, Aux) -> Aux)
    requires WellFormed(env, t)
    ensures var env' := Applied(env, t, action);
            WellFormed(env', t) <==>
            && env'.Compatible()
            && (forall e :: e in All(t.chains) ==> env'.Bucket(e.item, |t.chains|) == env.Bucket(e.item, |t.chains|))
            && (forall e, f :: e in All(t.chains) && f in All(t.chains) && e != f ==> !env'.Same(e.item, f.item))
  {
    StillWellFormedIff(env, Applied(env, t, action), t);
  }

  /** The other data say the same about which items are the same, and put every stored element in its old bucket. */
  ghost predicate KeysKept(env: Env, env': Env, t: Table)
    requires IsPow2(|t.chains|)
  {
    && env'.Compatible()
    && (forall a, b :: env'.Same(a, b) == env.Same(a, b))
    && (forall e :: e in All(t.chains) ==> env'.Bucket(e.item, |t.chains|) == env.Bucket(e.item, |t.chains|))
  }

  lemma SameKeys(env: Env, env': Env, a: Item)
    requires forall a, b :: env'.Same(a, b) == env.Same(a, b)
    ensures Key(env', a) == Key(env, a)
  {
  }

  /** Such data keep the table well-formed and representing the same map. */
  lemma KeptKeysKeepAll(env: Env, env': Env, t: Table, m: Dict)
    requires WellFormed(env, t) && Represents(env, t, m) && KeysKept(env, env', t)
    ensures WellFormed(env', t) && Represents(env', t, m)
  {
    hide Key, All, Env.Same, Env.Compatible, Env.Bucket, Represents, IsPow2, Placed;
    StillWellFormedIff(env, env', t);
    forall e | e in All(t.chains)
      ensures Key(env', e.item) == Key(env, e.item)
    {
      SameKeys(env, env', e.item);
    }
    StillRepresentsIff(env, env', t, m);
  }

  /** Applied to the elements of `s`, the action never changes what the callbacks say. */
  ghost predicate KeepsKeys(env: Env, action: (Item, Aux) -> Aux, s: seq<Elem>) {
    && (forall e, aux, a :: e in s ==> env.hash(a, action(e.item, aux)) == env.hash(a, aux))
    && (forall e, aux, a, b :: e in s ==> env.less(a, b, action(e.item, aux)) == env.less(a, b, aux))
  }

  lemma {:induction false} FoldKeepsKeys(env: Env, action: (Item, Aux) -> Aux, s: seq<Elem>, aux: Aux, a: Item, b: Item)
    requires KeepsKeys(env, action, s)
    ensures env.hash(a, Fold(action, s, aux)) == env.hash(a, aux)
    ensures env.less(a, b, Fold(action, s, aux)) == env.less(a, b, aux)
    decreases |s|
  {
    if s != [] {
      assert s[0] in s && forall e :: e in s[1..] ==> e in s;
      FoldKeepsKeys(env, action, s[1..], action(s[0].item, aux), a, b);
    }
  }

  /** An action that keeps the keys keeps the table well-formed and representing the same map. */
  lemma ApplyKeepsForm(env: Env, t: Table, action: (Item, Aux) -> Aux, m: Dict)
    requires WellFormed(env, t) && Represents(env, t, m) && KeepsKeys(env, action, Flat(t.chains))
    ensures KeysKept(env, Applied(env, t, action), t)
    ensures WellFormed(Applied(env, t, action), t) && Represents(Applied(env, t, action), t, m)
  {
    hide Represents, Placed, Unique, All, Flat, KeepsKeys;
    var env' := Applied(env, t, action);
    forall a
      ensures env'.hash(a, env'.aux) == env.hash(a, env.aux)
    {
      FoldKeepsKeys(env, action, Flat(t.chains), env.aux, a, a);
    }
    forall a, b
      ensures env'.Same(a, b) == env.Same(a, b)
    {
      FoldKeepsKeys(env, action, Flat(t.chains), env.aux, a, b);
      FoldKeepsKeys(env, action, Flat(t.chains), env.aux, b, a);
    }
    SameKeysCompatible(env, env');
    KeptKeysKeepAll(env, env', t, m);
  }

  lemma SameKeysCompatible(env: Env, env': Env)
    requires env.Compatible()
    requires forall a :: env'.hash(a, env'.aux) == env.hash(a, env.aux)
    requires forall a, b :: env'.Same(a, b) == env.Same(a, b)
    ensures env'.Compatible()
  {
    hide Env.Same;
    forall a, b, c | env'.Same(a, b) && env'.Same(b, c)
      ensures env'.Same(a, c)
    {
      assert env.Same(a, b) && env.Same(b, c);
    }
    forall a, b | env'.Same(a, b)
      ensures env'.hash(a, env'.aux) == env'.hash(b, env'.aux)
    {
      assert env.Same(a, b);
    }
  }

  // ---------- Runs ----------

  /** The operations of the table; those that may rehash say whether the allocation succeeds. */
  datatype Op =
    | OpInsert(e: Elem, alloc: bool)
    | OpReplace(e: Elem, alloc: bool)
    | OpFind(a: Item)
    | OpDelete(a: Item, alloc: bool)
    | OpClear(destructor: Option<(Item, Aux) -> Aux>)
    | OpApply(action: (Item, Aux) -> Aux)

  ghost function TableStep(env: Env, t: Table, op: Op): (r: (Table, Option<Elem>))
    requires Shape(t)
  {
    match op
    case OpInsert(e, alloc) => (Insert(env, t, e, alloc), Find(env, t, e.item))
    case OpReplace(e, alloc) => (Replace(env, t, e, alloc), Find(env, t, e.item))
    case OpFind(a) => (t, Find(env, t, a))
    case OpDelete(a, alloc) => (Delete(env, t, a, alloc), Find(env, t, a))
    case OpClear(_) => (Clear(t), None)
    case OpApply(_) => (t, None)
  }

  /** The callbacks and their data after an operation: only an action and a destructor change the data. */
  ghost function EnvStep(env: Env, t: Table, op: Op): Env {
    match op
    case OpClear(Some(destructor)) => Applied(env, t, destructor)
    case OpApply(action) => Applied(env, t, action)
    case _ => env
  }

  /** The same operations on a finite map. */
  ghost function DictStep(env: Env, m: Dict, op: Op): (Dict, Option<Elem>) {
    match op
    case OpInsert(e, _) =>
      var k := Key(env, e.item);
      (if k in m then m else m[k := e], Lookup(m, k))
    case OpReplace(e, _) =>
      var k := Key(env, e.item);
      (m[k := e], Lookup(m, k))
    case OpFind(a) => (m, Lookup(m, Key(env, a)))
    case OpDelete(a, _) => (m - {Key(env, a)}, Lookup(m, Key(env, a)))
    case OpClear(_) => (map[], None)
    case OpApply(_) => (m, None)
  }

  /** An action keeps the keys when it is applied to the table; a destructor leaves no stored element whose bucket
      could change. Nothing is asked of the other operations. */
  ghost predicate KeepsKeysInStep(env: Env, t: Table, op: Op)
    requires Shape(t)
  {
    match op
    case OpClear(_) => KeysKept(env, EnvStep(env, t, op), Clear(t))
    case OpApply(_) => KeysKept(env, EnvStep(env, t, op), t)
    case _ => true
  }

  /** Every operation of the run keeps the keys in its turn. */
  ghost predicate KeepsKeysInRun(env: Env, t: Table, ops: seq<Op>)
    requires WellFormed(env, t)
    decreases |ops|
  {
    ops == [] ||
    (&& KeepsKeysInStep(env, t, ops[0])
     && (StepKeepsForm(env, t, ops[0]);
         KeepsKeysInRun(EnvStep(env, t, ops[0]), TableStep(env, t, ops[0]).0, ops[1..])))
  }

  lemma StepKeepsForm(env: Env, t: Table, op: Op)
    requires WellFormed(env, t) && KeepsKeysInStep(env, t, op)
    ensures WellFormed(EnvStep(env, t, op), TableStep(env, t, op).0)
  {
    hide WellFormed, Represents, TableStep, DictStep, EnvStep, KeepsKeysInStep;
    FormIsShape(env, t);
    var m := RepresentedBy(env, All(t.chains));
    StepRefines(env, t, m, op);
  }

  lemma FormIsShape(env: Env, t: Table)
    requires WellFormed(env, t)
    ensures Shape(t) && env.Compatible() && Unique(env, All(t.chains))
    ensures forall m :: Holds(env, All(t.chains), m) ==> Represents(env, t, m)
  {
  }

  lemma RemoveIfFoundRefines(env: Env, t: Table, m: Dict, a: Item)
    requires WellFormed(env, t) && Represents(env, t, m)
    ensures WellFormed(env, RemoveIfFound(env, t, a))
    ensures Represents(env, RemoveIfFound(env, t, a), m - {Key(env, a)})
  {
    FindIsLookup(env, t, m, a);
    if Find(env, t, a).Some? {
      RemoveElemRefines(env, t, m, a);
    } else {
      assert m - {Key(env, a)} == m;
    }
  }

  lemma PutBack<K, V>(m: map<K, V>, k: K, v: V)
    ensures k !in m - {k} && (m - {k})[k := v] == m[k := v]
    ensures k in m ==> |m| == |m - {k}| + 1
  {
    if k in m {
      assert m.Keys == (m - {k}).Keys + {k};
      assert |m.Keys| == |(m - {k}).Keys| + 1;
    }
  }

  lemma ReplaceRefines(env: Env, t: Table, m: Dict, e: Elem, alloc: bool)
    requires WellFormed(env, t) && Represents(env, t, m)
    ensures WellFormed(env, Replace(env, t, e, alloc))
    ensures Represents(env, Replace(env, t, e, alloc), m[Key(env, e.item) := e])
  {
    var k := Key(env, e.item);
    RemoveIfFoundRefines(env, t, m, e.item);
    var t' := RemoveIfFound(env, t, e.item);
    assert Shape(t) && Shape(t');
    hide WellFormed, Represents, Rehash, InsertElem, RemoveIfFound, Key, Shape;
    PutBack(m, k, e);
    InsertElemRefines(env, t', m - {k}, e);
    RehashRefines(env, InsertElem(env, t', e), m[k := e], alloc);
  }

  lemma InsertRefines(env: Env, t: Table, m: Dict, e: Elem, alloc: bool)
    requires WellFormed(env, t) && Represents(env, t, m)
    ensures WellFormed(env, Insert(env, t, e, alloc))
    ensures var k := Key(env, e.item); Represents(env, Insert(env, t, e, alloc), if k in m then m else m[k := e])
  {
    hide Represents, Rehash, InsertElem, Key, Placed, Unique;
    FindIsLookup(env, t, m, e.item);
    if Find(env, t, e.item).None? {
      InsertElemRefines(env, t, m, e);
      RehashRefines(env, InsertElem(env, t, e), m[Key(env, e.item) := e], alloc);
    } else {
      RehashRefines(env, t, m, alloc);
    }
  }

  lemma DeleteRefines(env: Env, t: Table, m: Dict, a: Item, alloc: bool)
    requires WellFormed(env, t) && Represents(env, t, m)
    ensures WellFormed(env, Delete(env, t, a, alloc)) && Represents(env, Delete(env, t, a, alloc), m - {Key(env, a)})
  {
    hide Represents, Rehash, RemoveElem, Key, Placed, Unique;
    FindIsLookup(env, t, m, a);
    if Find(env, t, a).Some? {
      RemoveElemRefines(env, t, m, a);
      RehashRefines(env, RemoveElem(env, t, a), m - {Key(env, a)}, alloc);
    } else {
      assert m - {Key(env, a)} == m;
    }
  }

  lemma ClearRefines(env: Env, t: Table)
    requires WellFormed(env, t)
    ensures WellFormed(env, Clear(t)) && Represents(env, Clear(t), map[])
  {
  }

  /** One operation gives the same result on the table and on the map, and leaves them in step. */
  lemma StepRefines(env: Env, t: Table, m: Dict, op: Op)
    requires WellFormed(env, t) && Represents(env, t, m)
    requires KeepsKeysInStep(env, t, op)
    ensures TableStep(env, t, op).1 == DictStep(env, m, op).1
    ensures WellFormed(EnvStep(env, t, op), TableStep(env, t, op).0)
    ensures Represents(EnvStep(env, t, op), TableStep(env, t, op).0, DictStep(env, m, op).0)
  {
    hide Represents, Insert, Delete, Replace, Clear, Find, Key, Placed, Unique, KeysKept, Applied;
    match op
    case OpInsert(e, alloc) =>
      FindIsLookup(env, t, m, e.item);
      InsertRefines(env, t, m, e, alloc);
    case OpReplace(e, alloc) =>
      FindIsLookup(env, t, m, e.item);
      ReplaceRefines(env, t, m, e, alloc);
    case OpFind(a) =>
      FindIsLookup(env, t, m, a);
    case OpDelete(a, alloc) =>
      FindIsLookup(env, t, m, a);
      DeleteRefines(env, t, m, a, alloc);
    case OpClear(_) =>
      ClearRefines(env, t);
      KeptKeysKeepAll(env, EnvStep(env, t, op), Clear(t), map[]);
    case OpApply(action) =>
      KeptKeysKeepAll(env, Applied(env, t, action), t, m);
  }

  /** Runs without actions and destructors need no condition. */
  lemma {:induction false} OtherRunsKeepKeys(env: Env, t: Table, ops: seq<Op>)
    requires WellFormed(env, t)
    requires forall i :: 0 <= i < |ops| ==> !ops[i].OpApply? && !(ops[i].OpClear? && ops[i].destructor.Some?)
    ensures KeepsKeysInRun(env, t, ops)
    decreases |ops|
  {
    hide WellFormed, TableStep;
    if ops != [] {
      FormIsShape(env, t);
      StepKeepsForm(env, t, ops[0]);
      OtherRunsKeepKeys(env, TableStep(env, t, ops[0]).0, ops[1..]);
    }
  }

  /** What a run leaves, and its results, oldest first. */
  datatype Outcome = Outcome(env: Env, table: Table, results: seq<Option<Elem>>)

  ghost function TableRun(env: Env, t: Table, ops: seq<Op>): (r: Outcome)
    requires WellFormed(env, t) && KeepsKeysInRun(env, t, ops)
    ensures WellFormed(r.env, r.table)
    decreases |ops|
  {
    if ops == [] then Outcome(env, t, [])
    else
      StepKeepsForm(env, t, ops[0]);
      var (t', x) := TableStep(env, t, ops[0]);
      var r := TableRun(EnvStep(env, t, ops[0]), t', ops[1..]);
      r.(results := [x] + r.results)
  }

  ghost function DictRun(env: Env, m: Dict, ops: seq<Op>): (Dict, seq<Option<Elem>>)
    decreases |ops|
  {
    if ops == [] then (m, [])
    else
      var (m', x) := DictStep(env, m, ops[0]);
      var (m'', xs) := DictRun(env, m', ops[1..]);
      (m'', [x] + xs)
  }

  /** The map does not see that the data have changed, as long as the same items are the same. */
  lemma {:induction false} DictRunSame(env: Env, env': Env, m: Dict, ops: seq<Op>)
    requires forall a, b :: env'.Same(a, b) == env.Same(a, b)
    ensures DictRun(env', m, ops) == DictRun(env, m, ops)
    decreases |ops|
  {
    hide Key, Env.Same;
    forall a
      ensures Key(env', a) == Key(env, a)
    {
      SameKeys(env, env', a);
    }
    if ops != [] {
      DictRunSame(env, env', DictStep(env, m, ops[0]).0, ops[1..]);
    }
  }

  lemma EnvStepSame(env: Env, t: Table, m: Dict, op: Op, ops: seq<Op>)
    requires Shape(t) && KeepsKeysInStep(env, t, op)
    ensures DictRun(EnvStep(env, t, op), m, ops) == DictRun(env, m, ops)
  {
    if op.OpApply? || op.OpClear? {
      DictRunSame(env, EnvStep(env, t, op), m, ops);
    }
  }

  /** Every well-formed table represents some map. */
  lemma {:induction false} RepresentedBy(env: Env, all: multiset<Elem>) returns (m: Dict)
    requires env.Compatible() && Unique(env, all)
    ensures Holds(env, all, m)
    decreases |all|
  {
    if all == multiset{} {
      m := map[];
    } else {
      var e :| e in all;
      var rest := all - multiset{e};
      assert rest + multiset{e} == all;
      UniqueOneLess(env, rest, e);
      m := RepresentedBy(env, rest);
      forall k | k in m
        ensures k != Key(env, e.item)
      {
        SameKey(env, m[k].item, e.item);
      }
      HoldsOneMore(env, rest, m, e);
      m := m[Key(env, e.item) := e];
    }
  }

  /** Any run of operations, whatever allocations fail, is a run of the finite map. */
  lemma {:induction false} RunRefines(env: Env, t: Table, m: Dict, ops: seq<Op>)
    requires WellFormed(env, t) && Represents(env, t, m) && KeepsKeysInRun(env, t, ops)
    ensures TableRun(env, t, ops).results == DictRun(env, m, ops).1
    ensures var r := TableRun(env, t, ops); Represents(r.env, r.table, DictRun(env, m, ops).0)
    decreases |ops|
  {
    hide WellFormed, Represents, TableStep, DictStep, EnvStep, KeepsKeysInStep, Shape;
    FormIsShape(env, t);
    if ops == [] {
      assert TableRun(env, t, ops) == Outcome(env, t, []);
    } else {
      StepRefines(env, t, m, ops[0]);
      var env', t', m' := EnvStep(env, t, ops[0]), TableStep(env, t, ops[0]).0, DictStep(env, m, ops[0]).0;
      RunRefines(env', t', m', ops[1..]);
      FormIsShape(env', t');
      EnvStepSame(env, t, m', ops[0], ops[1..]);
    }
  }

  // ---------- Conservation of elements ----------

  /** An insertion adds the element iff none is equal to it. */
  lemma InsertConserves(env: Env, t: Table, e: Elem, alloc: bool)
    requires Shape(t)
    ensures All(Insert(env, t, e, alloc).chains)
         == if Find(env, t, e.item).None? then All(t.chains) + multiset{e} else All(t.chains)
  {
    hide All, Find, InsertElem, Rehash;
    if Find(env, t, e.item).None? {
      InsertElemAddsOne(env, t, e);
      RehashKeepsAll(env, InsertElem(env, t, e), alloc);
    } else {
      RehashKeepsAll(env, t, alloc);
    }
  }

  /** A replacement adds the element and takes out the one that it returns. */
  lemma ReplaceConserves(env: Env, t: Table, e: Elem, alloc: bool)
    requires Shape(t)
    ensures var all, found := All(Replace(env, t, e, alloc).chains), Find(env, t, e.item);
            if found.None? then all == All(t.chains) + multiset{e}
            else All(t.chains) + multiset{e} == all + multiset{found.value}
  {
    hide All, Find, InsertElem, RemoveElem, Rehash;
    if Find(env, t, e.item).Some? {
      RemoveElemTakesOne(env, t, e.item);
    }
    var t' := RemoveIfFound(env, t, e.item);
    InsertElemAddsOne(env, t', e);
    RehashKeepsAll(env, InsertElem(env, t', e), alloc);
  }

  /** A deletion takes out the element that it returns. */
  lemma DeleteConserves(env: Env, t: Table, a: Item, alloc: bool)
    requires Shape(t)
    ensures var all, found := All(Delete(env, t, a, alloc).chains), Find(env, t, a);
            if found.None? then all == All(t.chains) else All(t.chains) == all + multiset{found.value}
  {
    hide All, Find, RemoveElem, Rehash;
    if Find(env, t, a).Some? {
      RemoveElemTakesOne(env, t, a);
      RehashKeepsAll(env, RemoveElem(env, t, a), alloc);
    }
  }

  /** The element count is the size of the map. */
  lemma {:induction false} CountIsSize(env: Env, all: multiset<Elem>, m: Dict)
    requires Holds(env, all, m) && Unique(env, all)
    ensures |all| == |m|
    decreases |all|
  {
    if all == multiset{} {
      assert m == map[];
    } else {
      var e :| e in all;
      var rest, k := all - multiset{e}, Key(env, e.item);
      assert rest + multiset{e} == all;
      UniqueOneLess(env, rest, e);
      HoldsOneLess(env, rest, m, e);
      assert k in m;
      hide Holds, Unique, Key;
      CountIsSize(env, rest, m - {k});
      PutBack(m, k, e);
    }
  }

  // ---------- Actions that change keys ----------

  /** The callbacks of a table of integers: elements are compared, and hashed, by their values. */
  function ByValue(value: (Item, Aux) -> int, hashInt: int -> nat, aux: Aux): Env {
    Env((a, x) => hashInt(value(a, x)), (a, b, x) => value(a, x) < value(b, x), aux)
  }

  /** The action squares the value of its element and changes no other. */
  ghost predicate Squares(value: (Item, Aux) -> int, square: (Item, Aux) -> Aux) {
    forall i, aux, j :: value(j, square(i, aux)) == if j == i then value(i, aux) * value(i, aux) else value(j, aux)
  }

  lemma ByValueIsCompatible(value: (Item, Aux) -> int, hashInt: int -> nat, aux: Aux)
    ensures var env := ByValue(value, hashInt, aux);
            env.Compatible() && forall a, b :: env.Same(a, b) <==> value(a, aux) == value(b, aux)
  {
  }

  lemma BucketOfFour(env: Env, a: Item)
    ensures env.Bucket(a, 4) == env.hash(a, env.aux) % 4
  {
    assert Pow2(2) == 4;
    var q := AndMask(env.hash(a, env.aux), 2);
  }

  /** A table of four buckets with a single element. */
  lemma OneInTable(env: Env, e: Elem) returns (t: Table)
    requires env.Compatible()
    ensures WellFormed(env, t) && Shape(t) && All(t.chains) == multiset{e} && Flat(t.chains) == [e]
    ensures |t.chains| == 4 && forall b :: 0 <= b < 4 ==> t.chains[b] == if b == env.Bucket(e.item, 4) then [e] else []
  {
    t := EmptyTable(env);
    BucketInRange(env, e.item, 4);
    InsertElemKeepsForm(env, t, e);
    InsertElemAddsOne(env, t, e);
    t := InsertElem(env, t, e);
    hide Flat, All;
    FlatIsAll(t.chains);
    OneElement(Flat(t.chains), e);
  }

  lemma OneElement(s: seq<Elem>, e: Elem)
    requires multiset(s) == multiset{e}
    ensures s == [e]
  {
    assert |multiset(s)| == 1;
    assert s[0] in multiset(s);
  }

  lemma FoundAlone(env: Env, t: Table, e: Elem, b: nat)
    requires IsPow2(|t.chains|) && |t.chains| == 4 && env.Compatible()
    requires b < 4 && forall k :: 0 <= k < 4 ==> t.chains[k] == if k == b then [e] else []
    ensures Find(env, t, e.item) == if env.Bucket(e.item, 4) == b then Some(e) else None
    ensures Placed(env, t.chains) <==> env.Bucket(e.item, 4) == b
  {
    hide Env.Same, Env.Compatible;
    SameAsItself(env, e.item);
    BucketInRange(env, e.item, 4);
    assert e in t.chains[b];
  }

  /** Squaring the only element of a table leaves it where a search finds it exactly if the square has the old bucket,
      and misplaces it otherwise, whatever the hash of integers. */
  lemma SquaringCanMisplace(value: (Item, Aux) -> int, hashInt: int -> nat, square: (Item, Aux) -> Aux, e: Elem, x: Aux)
    returns (t: Table)
    requires Squares(value, square)
    ensures WellFormed(ByValue(value, hashInt, x), t) && Shape(t) && All(t.chains) == multiset{e}
    ensures var v, env' := value(e.item, x), Applied(ByValue(value, hashInt, x), t, square);
            && (Placed(env', t.chains) <==> hashInt(v * v) % 4 == hashInt(v) % 4)
            && Find(env', t, e.item) == if hashInt(v * v) % 4 == hashInt(v) % 4 then Some(e) else None
  {
    hide WellFormed, Shape, All, Flat, Placed, Find, Env.Same, Env.Compatible, Env.Bucket;
    var env := ByValue(value, hashInt, x);
    ByValueIsCompatible(value, hashInt, x);
    t := OneInTable(env, e);
    FoldOne(square, e, x);
    var env' := Applied(env, t, square);
    OtherData(value, hashInt, x, t, square);
    ByValueIsCompatible(value, hashInt, square(e.item, x));
    BucketOfFour(env, e.item);
    BucketOfFour(env', e.item);
    FoundAlone(env', t, e, env.Bucket(e.item, 4));
  }

  lemma FoldOne(action: (Item, Aux) -> Aux, e: Elem, aux: Aux)
    ensures Fold(action, [e], aux) == action(e.item, aux)
  {
    assert [e][1..] == [];
    assert Fold(action, [], action(e.item, aux)) == action(e.item, aux);
  }

  lemma TwoElements(s: seq<Elem>, e: Elem, f: Elem)
    requires multiset(s) == multiset{e, f} && e != f
    ensures s == [e, f] || s == [f, e]
  {
    assert |multiset(s)| == 2 && multiset(s)[e] == 1 && multiset(s)[f] == 1;
    assert s == [s[0], s[1]];
    assert s[0] in multiset(s) && s[1] in multiset(s);
  }

  lemma FoldTwo(action: (Item, Aux) -> Aux, e: Elem, f: Elem, aux: Aux)
    ensures Fold(action, [e, f], aux) == action(f.item, action(e.item, aux))
  {
    assert [e, f][1..] == [f] && [f][1..] == [];
    var y := action(e.item, aux);
    assert Fold(action, [f], y) == Fold(action, [], action(f.item, y));
  }

  /** Any two elements that are not the same can be in a table together. */
  lemma TwoInTable(env: Env, e: Elem, f: Elem) returns (t: Table)
    requires env.Compatible() && !env.Same(e.item, f.item)
    ensures WellFormed(env, t) && All(t.chains) == multiset{e, f} && e != f
  {
    hide Find, Env.Compatible;
    assert env.Same(e.item, e.item) by {
      SameAsItself(env, e.item);
    }
    t := EmptyTable(env);
    InsertElemKeepsForm(env, t, e);
    InsertElemAddsOne(env, t, e);
    t := InsertElem(env, t, e);
    assert All(t.chains) == multiset{e};
    assert forall g :: g in All(t.chains) ==> g == e;
    assert !env.Same(f.item, e.item);
    InsertElemKeepsForm(env, t, f);
    InsertElemAddsOne(env, t, f);
    t := InsertElem(env, t, f);
    assert All(t.chains) == multiset{e, f};
  }

  lemma EmptyTable(env: Env) returns (t: Table)
    requires env.Compatible()
    ensures WellFormed(env, t) && All(t.chains) == multiset{}
    ensures Shape(t) && |t.chains| == 4 && forall b :: 0 <= b < 4 ==> t.chains[b] == []
  {
    assert FloorPow2(4) == 4;
    t := Table(Empty(4), 0);
  }

  lemma BothSquared(value: (Item, Aux) -> int, square: (Item, Aux) -> Aux, e: Elem, f: Elem, x: Aux)
    requires Squares(value, square) && value(e.item, x) == -1 && value(f.item, x) == 1
    ensures forall y :: y == square(e.item, square(f.item, x)) || y == square(f.item, square(e.item, x)) ==>
              value(e.item, y) == 1 && value(f.item, y) == 1
  {
  }

  /** Squaring -1 and 1 makes two distinct stored elements the same, whatever the hash of integers. */
  lemma SquaringMerges(value: (Item, Aux) -> int, hashInt: int -> nat, square: (Item, Aux) -> Aux,
                       e: Elem, f: Elem, x: Aux)
    returns (t: Table)
    requires Squares(value, square) && value(e.item, x) == -1 && value(f.item, x) == 1
    ensures WellFormed(ByValue(value, hashInt, x), t) && All(t.chains) == multiset{e, f} && e != f
    ensures var env' := Applied(ByValue(value, hashInt, x), t, square);
            env'.Same(e.item, f.item) && !Unique(env', All(t.chains)) && !WellFormed(env', t)
  {
    hide WellFormed, Unique, All, Flat, Fold, Env.Compatible, Env.Same, ByValue, Squares;
    var env := ByValue(value, hashInt, x);
    ByValueIsCompatible(value, hashInt, x);
    t := TwoInTable(env, e, f);
    FlatIsAll(t.chains);
    TwoElements(Flat(t.chains), e, f);
    FoldTwo(square, e, f, x);
    FoldTwo(square, f, e, x);
    BothSquared(value, square, e, f, x);
    var y := Fold(square, Flat(t.chains), x);
    ByValueIsCompatible(value, hashInt, y);
    OtherData(value, hashInt, x, t, square);
    NotUnique(ByValue(value, hashInt, y), t, e, f);
  }

  lemma OtherData(value: (Item, Aux) -> int, hashInt: int -> nat, x: Aux, t: Table, action: (Item, Aux) -> Aux)
    ensures Applied(ByValue(value, hashInt, x), t, action) == ByValue(value, hashInt, Fold(action, Flat(t.chains), x))
  {
  }

  lemma NotUnique(env: Env, t: Table, e: Elem, f: Elem)
    requires e in All(t.chains) && f in All(t.chains) && e != f && env.Same(e.item, f.item)
    ensures !Unique(env, All(t.chains)) && !WellFormed(env, t)
  {
  }
}
