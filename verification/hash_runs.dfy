/** Sequences of operations on a hash table. */
module HashRuns {
  import opened Elements
  import opened HashTheory
  import opened HashTables
  import opened Wrappers

  /** The element that an operation gives to the table. */
  ghost function Given(op: Op): set<Elem> {
    match op
    case OpInsert(e, _) => {e}
    case OpReplace(e, _) => {e}
    case _ => {}
  }

  ghost function AllGiven(ops: seq<Op>): set<Elem>
    decreases |ops|
  {
    if ops == [] then {} else Given(ops[0]) + AllGiven(ops[1..])
  }

  /** Of the nodes of the table, those in `given` are stored elements, and none is the header of a bucket. */
  ghost predicate NoHeader(h: HashTable, given: set<Elem>)
    reads h
  {
    forall e :: e in given && e in h.f.repr ==> e in All(h.f.chains)
  }

  /** A stored element is what a search for its own item finds. */
  lemma StoredIsFound(env: Env, t: Table, m: Dict, e: Elem)
    requires WellFormed(env, t) && Represents(env, t, m) && e in All(t.chains)
    ensures Shape(t) && HashTheory.Find(env, t, e.item) == Some(e)
  {
    FindIsLookup(env, t, m, e.item);
  }

  /** A replacement takes no element out of the table but the one that it returns. */
  lemma ReplaceKeepsOthers(env: Env, t: Table, e: Elem, alloc: bool, g: Elem)
    requires Shape(t) && (g in All(t.chains) || g == e)
    ensures g in All(HashTheory.Replace(env, t, e, alloc).chains)
            || (HashTheory.Find(env, t, e.item) == Some(g) && g != e)
  {
    hide HashTheory.Replace, HashTheory.Find, All;
    ReplaceConserves(env, t, e, alloc);
    var all, found := All(HashTheory.Replace(env, t, e, alloc).chains), HashTheory.Find(env, t, e.item);
    if found.Some? {
      FoundIsCounted(env, t, e.item);
      assert (All(t.chains) + multiset{e})[g] == (all + multiset{found.value})[g];
    }
  }

  /** The given elements that are nodes of the table after an operation are stored elements, when `repr` are its nodes
      before and `repr'` after it. */
  lemma GivenAreStored(env: Env, t: Table, op: Op, given: set<Elem>, repr: set<Elem>, repr': set<Elem>)
    requires Shape(t) && Given(op) <= given
    requires forall e :: e in given && e in repr ==> e in All(t.chains)
    requires forall e :: e in given && e in repr' ==> e in repr || e in Given(op)
    requires op.OpInsert? && HashTheory.Find(env, t, op.e.item).Some? ==> given * repr' <= repr
    requires op.OpReplace? ==> var found := HashTheory.Find(env, t, op.e.item);
                               found.Some? && found != Some(op.e) ==> found.value !in repr'
    requires op.OpDelete? ==> var found := HashTheory.Find(env, t, op.a); found.Some? ==> found.value !in repr'
    requires op.OpClear? ==> forall e :: e in All(t.chains) ==> e !in repr'
    ensures forall e :: e in given && e in repr' ==> e in All(TableStep(env, t, op).0.chains)
  {
    hide HashTheory.Insert, HashTheory.Replace, HashTheory.Delete, HashTheory.Find, HashTheory.Clear, All, Shape;
    forall e | e in given && e in repr'
      ensures e in All(TableStep(env, t, op).0.chains)
    {
      match op {
        case OpInsert(f, alloc) =>
          InsertConserves(env, t, f, alloc);
        case OpReplace(f, alloc) =>
          ReplaceKeepsOthers(env, t, f, alloc, e);
        case OpFind(_) =>
        case OpDelete(a, alloc) =>
          DeleteConserves(env, t, a, alloc);
        case OpClear(_) =>
        case OpApply(_) =>
      }
    }
  }

  /** One operation; any element may be given, also one that the table holds, or has held before. */
  method Perform(h: HashTable, op: Op, ghost m: Dict, ghost given: set<Elem>) returns (r: Option<Elem>)
    requires h.Valid() && WellFormed(h.TheEnv(), h.Abs()) && Represents(h.TheEnv(), h.Abs(), m)
    requires NoHeader(h, given) && Given(op) <= given
    modifies h, h.f.heads, h.f.repr, given
    ensures h.Valid() && NoHeader(h, given)
    ensures Shape(old(h.Abs())) && (h.Abs(), r) == TableStep(old(h.TheEnv()), old(h.Abs()), op)
    ensures h.TheEnv() == EnvStep(old(h.TheEnv()), old(h.Abs()), op)
    ensures fresh(h.f.repr - old(h.f.repr) - given) && fresh(h.f.heads - old(h.f.heads))
  {
    hide HashTable.Valid, WellFormed, Represents, Shape, All, Flat;
    hide HashTheory.Insert, HashTheory.Replace, HashTheory.Delete, HashTheory.Find, HashTheory.Clear;
    h.HasShape();
    ghost var env, t := h.TheEnv(), h.Abs();
    var found: Elem? := null;
    match op {
      case OpInsert(e, alloc) =>
        if e in h.f.repr {
          StoredIsFound(env, t, m, e);
        }
        found := h.Insert(e, alloc);
      case OpReplace(e, alloc) =>
        if e in h.f.repr {
          StoredIsFound(env, t, m, e);
        }
        found := h.Replace(e, alloc);
      case OpFind(a) =>
        found := h.Find(a);
      case OpDelete(a, alloc) =>
        found := h.Delete(a, alloc);
      case OpClear(destructor) =>
        FlatIsAll(h.f.chains);
        h.Clear(destructor);
      case OpApply(action) =>
        h.Apply(action);
    }
    assert forall e :: e in given && e in h.f.repr ==> e in old(h.f.repr) || e in Given(op) by {
      assert forall e :: e in given ==> old(allocated(e));
    }
    GivenAreStored(env, t, op, given, old(h.f.repr), h.f.repr);
    r := Opt(found);
  }

  /** Any sequence of operations, whatever allocations fail and whatever elements are given: the results are those of
      the finite map, and the table goes on representing it. Actions may come in between if they keep
      the keys. */
  method RunOps(h: HashTable, ops: seq<Op>, ghost m: Dict, ghost given: set<Elem>) returns (results: seq<Option<Elem>>)
    requires h.Valid() && WellFormed(h.TheEnv(), h.Abs()) && Represents(h.TheEnv(), h.Abs(), m)
    requires KeepsKeysInRun(h.TheEnv(), h.Abs(), ops)
    requires NoHeader(h, given) && AllGiven(ops) <= given
    modifies h, h.f.heads, h.f.repr, given
    ensures h.Valid() && NoHeader(h, given) && WellFormed(h.TheEnv(), h.Abs())
    ensures results == DictRun(old(h.TheEnv()), m, ops).1
    ensures Represents(h.TheEnv(), h.Abs(), DictRun(old(h.TheEnv()), m, ops).0)
    decreases |ops|
  {
    hide HashTable.Valid, WellFormed, Represents, TableStep, DictStep, EnvStep, Shape, KeepsKeysInStep, NoHeader, Given;
    if |ops| == 0 {
      return [];
    }
    ghost var env, t := h.TheEnv(), h.Abs();
    h.HasShape();
    StepRefines(env, t, m, ops[0]);
    EnvStepSame(env, t, DictStep(env, m, ops[0]).0, ops[0], ops[1..]);
    var r := Perform(h, ops[0], m, given);
    var rest := RunOps(h, ops[1..], DictStep(env, m, ops[0]).0, given);
    results := [r] + rest;
  }
}
