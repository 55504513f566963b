/** What the operations of `bitmap.c` do to a sequence of bits. */
module BitSequences {
  import opened Wrappers

  /** All the `cnt` bits from `start` on are `value`. */
  predicate Block(s: seq<bool>, start: nat, cnt: nat, value: bool)
    requires start + cnt <= |s|
  {
    forall i :: start <= i < start + cnt ==> s[i] == value
  }

  /** The bits after the `cnt` bits from `start` on were set to `value`. */
  ghost function Filled(s: seq<bool>, start: nat, cnt: nat, value: bool): (t: seq<bool>)
    requires start + cnt <= |s|
    ensures |t| == |s|
    ensures forall i :: 0 <= i < |s| ==> t[i] == if start <= i < start + cnt then value else s[i]
  {
    s[..start] + seq(cnt, _ => value) + s[start + cnt..]
  }

  ghost function Count(s: seq<bool>, value: bool): nat {
    if s == [] then 0 else (if s[0] == value then 1 else 0) + Count(s[1..], value)
  }

  /** The least position at or after `start` of `cnt` bits that all are `value`. */
  ghost function FirstFit(s: seq<bool>, start: nat, cnt: nat, value: bool): (r: Option<nat>)
    ensures r.Some? ==>
              && start <= r.value && r.value + cnt <= |s| && Block(s, r.value, cnt, value)
              && forall j {:trigger Block(s, j, cnt, value)} :: start <= j < r.value ==> !Block(s, j, cnt, value)
    ensures r.None? ==>
              forall j {:trigger Block(s, j, cnt, value)} :: start <= j && j + cnt <= |s| ==> !Block(s, j, cnt, value)
    decreases |s| - start
  {
    if start + cnt > |s| then None
    else if Block(s, start, cnt, value) then Some(start)
    else FirstFit(s, start + 1, cnt, value)
  }

  lemma {:induction false} CountConcat(s: seq<bool>, t: seq<bool>, value: bool)
    ensures Count(s + t, value) == Count(s, value) + Count(t, value)
  {
    if s == [] {
      assert s + t == t;
    } else {
      assert (s + t)[1..] == s[1..] + t;
      CountConcat(s[1..], t, value);
    }
  }

  /** Every bit is either set or not. */
  lemma {:induction false} CountsAddUp(s: seq<bool>)
    ensures Count(s, true) + Count(s, false) == |s|
  {
    if s != [] {
      CountsAddUp(s[1..]);
    }
  }

  /** `count` and the tests for any, no and only set bits agree. */
  lemma {:induction false} CountIsZeroIff(s: seq<bool>, value: bool)
    ensures Count(s, value) == 0 <==> Block(s, 0, |s|, !value)
  {
    if s != [] {
      CountIsZeroIff(s[1..], value);
      if Block(s, 0, |s|, !value) {
        assert s[0] != value;
        forall i | 0 <= i < |s[1..]|
          ensures s[1..][i] == !value
        {
          assert s[i + 1] == !value;
        }
      } else if s[0] != value {
        var i :| 0 <= i < |s| && s[i] == value;
        assert s[1..][i - 1] == value;
      }
    }
  }

  lemma NothingToCount(s: seq<bool>, start: nat, value: bool)
    requires start <= |s|
    ensures Count(s[start..start], value) == 0
  {
  }

  lemma CountOneMore(s: seq<bool>, start: nat, i: nat, value: bool)
    requires start <= i < |s|
    ensures Count(s[start..i + 1], value) == Count(s[start..i], value) + if s[i] == value then 1 else 0
  {
    assert Count([s[i]], value) == if s[i] == value then 1 else 0;
    hide Count;
    CountConcat(s[start..i], [s[i]], value);
    assert s[start..i + 1] == s[start..i] + [s[i]];
  }

  /** The count in three parts. */
  lemma Count3(a: seq<bool>, b: seq<bool>, c: seq<bool>, value: bool)
    ensures Count(a + b + c, value) == Count(a, value) + Count(b, value) + Count(c, value)
  {
    hide Count;
    CountConcat(a + b, c, value);
    CountConcat(a, b, value);
  }

  lemma CountOfBlock(b: seq<bool>, value: bool)
    requires Block(b, 0, |b|, value)
    ensures Count(b, value) == |b| && Count(b, !value) == 0
  {
    hide Count;
    CountIsZeroIff(b, !value);
    CountsAddUp(b);
  }

  lemma BlockParts(s: seq<bool>, start: nat, cnt: nat)
    requires start + cnt <= |s|
    ensures s == s[..start] + s[start..start + cnt] + s[start + cnt..]
  {
  }

  /** Filling a block of the other value raises the count of the value by the length of the block. */
  lemma FillCounts(s: seq<bool>, start: nat, cnt: nat, value: bool)
    requires start + cnt <= |s| && Block(s, start, cnt, !value)
    ensures Count(Filled(s, start, cnt, value), value) == Count(s, value) + cnt
  {
    hide Count;
    var a, b, c := s[..start], s[start..start + cnt], s[start + cnt..];
    var d := seq(cnt, _ => value);
    BlockParts(s, start, cnt);
    Count3(a, b, c, value);
    Count3(a, d, c, value);
    CountOfBlock(b, !value);
    CountOfBlock(d, value);
  }
}

/** First-fit allocation of ranges of bits, where a set bit is in use. */
module RangeAllocation {
  import opened BitSequences

  datatype Range = Range(start: nat, cnt: nat)

  predicate Covers(r: Range, i: nat) {
    r.start <= i < r.start + r.cnt
  }

  ghost predicate Apart(r: Range, q: Range) {
    forall i: nat :: !(Covers(r, i) && Covers(q, i))
  }

  /** The live ranges share no bit, and the set bits are exactly the ones that they cover. */
  ghost predicate Exact(s: seq<bool>, live: seq<Range>) {
    && (forall k :: 0 <= k < |live| ==> live[k].start + live[k].cnt <= |s|)
    && (forall j, k :: 0 <= j < k < |live| ==> Apart(live[j], live[k]))
    && (forall i: nat :: i < |s| ==> (s[i] <==> Covered(live, i)))
  }

  ghost predicate Covered(live: seq<Range>, i: nat) {
    exists k :: 0 <= k < |live| && Covers(live[k], i)
  }

  /** `bitmap_scan_and_flip(.., start, cnt, false)`, or `bitmap_set_multiple(.., false)` on a live range. */
  datatype Op = Allocate(start: nat, cnt: nat) | Free(k: nat)

  ghost function Step(s: seq<bool>, live: seq<Range>, op: Op): (r: (seq<bool>, seq<Range>))
    requires forall k :: 0 <= k < |live| ==> live[k].start + live[k].cnt <= |s|
  {
    match op
    case Allocate(start, cnt) =>
      (match FirstFit(s, start, cnt, false)
       case None => (s, live)
       case Some(at) => (Filled(s, at, cnt, true), live + [Range(at, cnt)]))
    case Free(k) =>
      if k < |live| then (Filled(s, live[k].start, live[k].cnt, false), live[..k] + live[k + 1..])
      else (s, live)
  }

  lemma AllocateKeepsExact(s: seq<bool>, live: seq<Range>, start: nat, cnt: nat)
    requires Exact(s, live)
    ensures var r := Step(s, live, Allocate(start, cnt)); |r.0| == |s| && Exact(r.0, r.1)
  {
    var fit := FirstFit(s, start, cnt, false);
    if fit.Some? {
      var taken, s' := Range(fit.value, cnt), Filled(s, fit.value, cnt, true);
      var live' := live + [taken];
      forall k | 0 <= k < |live|
        ensures Apart(live[k], taken)
      {
        forall i: nat
          ensures !(Covers(live[k], i) && Covers(taken, i))
        {
          if Covers(live[k], i) {
            assert Covered(live, i);
          }
        }
      }
      forall i: nat | i < |s|
        ensures s'[i] <==> Covered(live', i)
      {
        if Covered(live, i) {
          var k :| 0 <= k < |live| && Covers(live[k], i);
          assert live'[k] == live[k];
        }
        assert live'[|live|] == taken;
      }
    }
  }

  /** When ranges share no bit, taking one of them out uncovers its own bits and no others. */
  lemma CoveredWithout(live: seq<Range>, k: nat, i: nat)
    requires k < |live| && forall m, n :: 0 <= m < n < |live| ==> Apart(live[m], live[n])
    ensures Covered(live[..k] + live[k + 1..], i) <==> Covered(live, i) && !Covers(live[k], i)
  {
    var rest := live[..k] + live[k + 1..];
    if Covered(live, i) && !Covers(live[k], i) {
      var j :| 0 <= j < |live| && Covers(live[j], i);
      assert rest[if j < k then j else j - 1] == live[j];
    }
    if Covered(rest, i) {
      var j :| 0 <= j < |rest| && Covers(rest[j], i);
      var j' := if j < k then j else j + 1;
      assert rest[j] == live[j'];
      assert Covered(live, i) && Apart(live[if j' < k then j' else k], live[if j' < k then k else j']);
    }
  }

  lemma ApartWithout(live: seq<Range>, k: nat, n: nat)
    requires k < |live| && forall i, j :: 0 <= i < j < |live| ==> Apart(live[i], live[j])
    requires forall i :: 0 <= i < |live| ==> live[i].start + live[i].cnt <= n
    ensures var rest := live[..k] + live[k + 1..];
            && (forall i, j :: 0 <= i < j < |rest| ==> Apart(rest[i], rest[j]))
            && (forall i :: 0 <= i < |rest| ==> rest[i].start + rest[i].cnt <= n)
  {
    hide Apart;
  }

  lemma FreeKeepsExact(s: seq<bool>, live: seq<Range>, k: nat)
    requires Exact(s, live)
    ensures var r := Step(s, live, Free(k)); |r.0| == |s| && Exact(r.0, r.1)
  {
    hide Covered, Apart;
    if k < |live| {
      ApartWithout(live, k, |s|);
      forall i: nat | i < |s|
        ensures Filled(s, live[k].start, live[k].cnt, false)[i] <==> Covered(live[..k] + live[k + 1..], i)
      {
        CoveredWithout(live, k, i);
      }
    }
  }

  ghost function Run(s: seq<bool>, live: seq<Range>, ops: seq<Op>): (r: (seq<bool>, seq<Range>))
    requires Exact(s, live)
    ensures Exact(r.0, r.1) && |r.0| == |s|
    decreases |ops|
  {
    if ops == [] then (s, live)
    else
      StepKeepsExact(s, live, ops[0]);
      var (s', live') := Step(s, live, ops[0]);
      Run(s', live', ops[1..])
  }

  lemma StepKeepsExact(s: seq<bool>, live: seq<Range>, op: Op)
    requires Exact(s, live)
    ensures var r := Step(s, live, op); |r.0| == |s| && Exact(r.0, r.1)
  {
    match op
    case Allocate(start, cnt) => AllocateKeepsExact(s, live, start, cnt);
    case Free(k) => FreeKeepsExact(s, live, k);
  }

  ghost predicate AllClear(s: seq<bool>, at: nat, cnt: nat) {
    at + cnt <= |s| && forall i :: at <= i < at + cnt ==> !s[i]
  }

  /** An allocation takes the first clear block at or after `start`, if there is one, and changes nothing otherwise. */
  lemma AllocateDoes(s: seq<bool>, live: seq<Range>, start: nat, cnt: nat, at: nat)
    requires Exact(s, live)
    ensures var (s', live') := Step(s, live, Allocate(start, cnt));
            && (start <= at && AllClear(s, at, cnt) && (forall j :: start <= j < at ==> !AllClear(s, j, cnt)) ==>
                  && live' == live + [Range(at, cnt)] && |s'| == |s|
                  && forall i :: 0 <= i < |s| ==> s'[i] == (at <= i < at + cnt || s[i]))
            && ((forall j :: start <= j ==> !AllClear(s, j, cnt)) ==> s' == s && live' == live)
  {
    hide Exact;
    RangesFit(s, live);
    var fit := FirstFit(s, start, cnt, false);
    forall j: nat
      ensures AllClear(s, j, cnt) <==> j + cnt <= |s| && Block(s, j, cnt, false)
    {
    }
    assert fit.Some? ==> AllClear(s, fit.value, cnt);
  }

  /** A free gives back exactly the bits of one live range. */
  lemma FreeDoes(s: seq<bool>, live: seq<Range>, k: nat)
    requires Exact(s, live)
    ensures var (s', live') := Step(s, live, Free(k));
            if k < |live| then
              && live' == live[..k] + live[k + 1..] && |s'| == |s|
              && forall i :: 0 <= i < |s| ==> s'[i] == (s[i] && !(live[k].start <= i < live[k].start + live[k].cnt))
            else s' == s && live' == live
  {
    hide Exact;
    RangesFit(s, live);
  }

  /** The number of bits that the ranges cover, when they share none. */
  ghost function Total(live: seq<Range>): nat {
    if live == [] then 0 else live[0].cnt + Total(live[1..])
  }

  lemma {:induction false} TotalConcat(a: seq<Range>, b: seq<Range>)
    ensures Total(a + b) == Total(a) + Total(b)
  {
    if a == [] {
      assert a + b == b;
    } else {
      assert (a + b)[1..] == a[1..] + b;
      TotalConcat(a[1..], b);
    }
  }

  lemma TotalWithout(live: seq<Range>, k: nat)
    requires k < |live|
    ensures Total(live) == Total(live[..k] + live[k + 1..]) + live[k].cnt
  {
    var a, r, b := live[..k], [live[k]], live[k + 1..];
    assert live == a + (r + b);
    TotalConcat(a, r + b);
    TotalConcat(r, b);
    TotalConcat(a, b);
  }

  lemma TotalSnoc(live: seq<Range>, r: Range)
    ensures Total(live + [r]) == Total(live) + r.cnt
  {
    TotalConcat(live, [r]);
  }

  lemma RangesFit(s: seq<bool>, live: seq<Range>)
    requires Exact(s, live)
    ensures forall k :: 0 <= k < |live| ==> live[k].start + live[k].cnt <= |s|
  {
  }

  /** The bits of a live range are set. */
  lemma LiveIsSet(s: seq<bool>, live: seq<Range>, k: nat)
    requires Exact(s, live) && k < |live|
    ensures live[k].start + live[k].cnt <= |s| && Block(s, live[k].start, live[k].cnt, true)
  {
    forall i | live[k].start <= i < live[k].start + live[k].cnt
      ensures s[i]
    {
      assert Covers(live[k], i);
    }
  }

  lemma StepConserves(s: seq<bool>, live: seq<Range>, op: Op)
    requires Exact(s, live) && Count(s, true) == Total(live)
    ensures var r := Step(s, live, op); Count(r.0, true) == Total(r.1)
  {
    hide Count, Total, Filled, Block, Exact;
    RangesFit(s, live);
    match op {
      case Allocate(start, cnt) =>
        var fit := FirstFit(s, start, cnt, false);
        if fit.Some? {
          FillCounts(s, fit.value, cnt, true);
          TotalSnoc(live, Range(fit.value, cnt));
        }
      case Free(k) =>
        if k < |live| {
          var r, t := live[k], Filled(s, live[k].start, live[k].cnt, false);
          LiveIsSet(s, live, k);
          FillCounts(s, r.start, r.cnt, false);
          CountsAddUp(s);
          CountsAddUp(t);
          TotalWithout(live, k);
        }
    }
  }

  /** A new bitmap, in which no range is live. */
  ghost function Clear(n: nat): (s: seq<bool>)
    ensures |s| == n && Exact(s, [])
  {
    seq(n, _ => false)
  }

  /** In every run that starts from a clear bitmap, a bit is set iff some live range covers it,
      and no two live ranges cover the same bit. */
  lemma RunIsExact(n: nat, ops: seq<Op>, i: nat)
    requires i < n
    ensures var (s, live) := Run(Clear(n), [], ops);
            && |s| == n && (s[i] <==> Covered(live, i))
            && (forall j, k :: 0 <= j < k < |live| ==> !(Covers(live[j], i) && Covers(live[k], i)))
  {
    var (s, live) := Run(Clear(n), [], ops);
    forall j, k | 0 <= j < k < |live|
      ensures !(Covers(live[j], i) && Covers(live[k], i))
    {
      assert Apart(live[j], live[k]);
    }
  }

  lemma {:induction false} RunCounts(s: seq<bool>, live: seq<Range>, ops: seq<Op>)
    requires Exact(s, live) && Count(s, true) == Total(live)
    ensures var (s', live') := Run(s, live, ops); Count(s', true) == Total(live')
    decreases |ops|
  {
    hide Count, Total, Exact, Step;
    if ops != [] {
      RangesFit(s, live);
      StepKeepsExact(s, live, ops[0]);
      StepConserves(s, live, ops[0]);
      var (s', live') := Step(s, live, ops[0]);
      RunCounts(s', live', ops[1..]);
    }
  }

  /** No bit is lost or given out twice: in every run that starts from a clear bitmap, as many bits are set as the live
      ranges have, and all the others are clear. */
  lemma RunConserves(n: nat, ops: seq<Op>)
    ensures var (s, live) := Run(Clear(n), [], ops);
            Count(s, true) == Total(live) && Count(s, false) == n - Total(live)
  {
    hide Count;
    CountIsZeroIff(Clear(n), true);
    RunCounts(Clear(n), [], ops);
    CountsAddUp(Run(Clear(n), [], ops).0);
  }
}

/** `struct bitmap`: bits packed into words. */
module Bitmaps {
  import opened Bits
  import opened BitSequences
  import opened Wrappers

  const ELEM_BITS := 64

  /** `unsigned long`. */
  type ElemType = n: nat | n < 0x1_0000_0000_0000_0000

  /** `elem_idx`. */
  function ElemIdx(bitIdx: nat): nat {
    bitIdx / ELEM_BITS
  }

  /** `bit_mask`. */
  function BitMask(bitIdx: nat): ElemType {
    WordPowers();
    Pow2Grows(bitIdx % ELEM_BITS, ELEM_BITS);
    Pow2(bitIdx % ELEM_BITS)
  }

  /** `elem_cnt`. */
  function ElemCnt(bitCnt: nat): nat {
    (bitCnt + ELEM_BITS - 1) / ELEM_BITS
  }

  /** Every bit has an element, and every element has a bit. */
  lemma ElemCntIsEnough(bitCnt: nat)
    ensures forall i: nat {:trigger ElemIdx(i)} :: i < bitCnt ==> ElemIdx(i) < ElemCnt(bitCnt)
    ensures bitCnt > 0 ==> ElemCnt(bitCnt) == ElemIdx(bitCnt - 1) + 1
  {
  }

  ghost predicate BitAt(words: seq<ElemType>, i: nat)
    requires ElemIdx(i) < |words|
  {
    Bit(words[ElemIdx(i)], i % ELEM_BITS)
  }

  /** The first `n` bits of the words. */
  ghost function Unpacked(words: seq<ElemType>, n: nat): (s: seq<bool>)
    requires n <= ELEM_BITS * |words|
    ensures |s| == n && forall i :: 0 <= i < n ==> s[i] == BitAt(words, i)
  {
    seq(n, i requires 0 <= i < n => BitAt(words, i))
  }

  // ---------- Operations on one word ----------

  function Marked(w: ElemType, mask: ElemType): ElemType {
    WordPowers();
    OrBelow(w, mask, ELEM_BITS);
    Or(w, mask)
  }

  function Cleared(w: ElemType, mask: ElemType): ElemType {
    WordPowers();
    AndBelow(w, Not(mask, ELEM_BITS));
    And(w, Not(mask, ELEM_BITS))
  }

  function Flipped(w: ElemType, mask: ElemType): ElemType {
    WordPowers();
    XorBelow(w, mask, ELEM_BITS);
    Xor(w, mask)
  }

  /** The bit is on in the mask, and no other. */
  lemma MaskHasOneBit(bitIdx: nat, k: nat)
    ensures Bit(BitMask(bitIdx), k) == (k == bitIdx % ELEM_BITS)
  {
    BitOfPow2(bitIdx % ELEM_BITS, k);
  }

  /** What marking, resetting and flipping bit `bitIdx` do to bit `k` of its word. */
  ghost predicate OneBit(w: ElemType, bitIdx: nat, k: nat) {
    var here := k == bitIdx % ELEM_BITS;
    && Bit(Marked(w, BitMask(bitIdx)), k) == (here || Bit(w, k))
    && Bit(Cleared(w, BitMask(bitIdx)), k) == (!here && Bit(w, k))
    && Bit(Flipped(w, BitMask(bitIdx)), k) == (here != Bit(w, k))
  }

  lemma OneBitChanges(w: ElemType, bitIdx: nat, k: nat)
    requires k < ELEM_BITS
    ensures OneBit(w, bitIdx, k)
  {
    var mask := BitMask(bitIdx);
    MaskHasOneBit(bitIdx, k);
    WordPowers();
    hide Or, And, Xor, Bit, Pow2, BitMask;
    BitOfOr(w, mask, k);
    BitOfNot(mask, ELEM_BITS, k);
    BitOfAnd(w, Not(mask, ELEM_BITS), k);
    BitOfXor(w, mask, k);
  }

  /** A bit of the result of a test is the bit that was asked for. */
  lemma TestIsBit(w: ElemType, bitIdx: nat)
    ensures And(w, BitMask(bitIdx)) != 0 <==> Bit(w, bitIdx % ELEM_BITS)
  {
    var mask, k := BitMask(bitIdx), bitIdx % ELEM_BITS;
    MaskHasOneBit(bitIdx, k);
    BitOfAnd(w, mask, k);
    BitOfZero(k);
    hide Bit, And, BitMask;
    if And(w, mask) != 0 && !Bit(w, k) {
      forall j | 0 <= j < ELEM_BITS
        ensures Bit(And(w, mask), j) == Bit(0, j)
      {
        MaskHasOneBit(bitIdx, j);
        BitOfAnd(w, mask, j);
        BitOfZero(j);
      }
      AndBelow(w, mask);
      WordPowers();
      BitsDetermine(And(w, mask), 0, ELEM_BITS);
    }
  }

  /** Changing one word by its mask changes one bit of the bitmap. */
  lemma WordChanged(words: seq<ElemType>, n: nat, bitIdx: nat, w: ElemType)
    requires bitIdx < n <= ELEM_BITS * |words|
    requires forall k :: 0 <= k < ELEM_BITS && k != bitIdx % ELEM_BITS ==> Bit(w, k) == Bit(words[ElemIdx(bitIdx)], k)
    ensures Unpacked(words[ElemIdx(bitIdx) := w], n) == Unpacked(words, n)[bitIdx := Bit(w, bitIdx % ELEM_BITS)]
  {
    hide Bit;
    var words' := words[ElemIdx(bitIdx) := w];
    forall i | 0 <= i < n
      ensures BitAt(words', i) == if i == bitIdx then Bit(w, i % ELEM_BITS) else BitAt(words, i)
    {
      if ElemIdx(i) == ElemIdx(bitIdx) && i != bitIdx {
        assert i % ELEM_BITS != bitIdx % ELEM_BITS;
      }
    }
  }

  lemma ChangedWord(w: ElemType, bitIdx: nat)
    ensures var mask, at := BitMask(bitIdx), bitIdx % ELEM_BITS;
            && Bit(Marked(w, mask), at) && !Bit(Cleared(w, mask), at) && Bit(Flipped(w, mask), at) == !Bit(w, at)
            && (forall k :: 0 <= k < ELEM_BITS && k != at ==> Bit(Marked(w, mask), k) == Bit(w, k))
            && (forall k :: 0 <= k < ELEM_BITS && k != at ==> Bit(Cleared(w, mask), k) == Bit(w, k))
            && (forall k :: 0 <= k < ELEM_BITS && k != at ==> Bit(Flipped(w, mask), k) == Bit(w, k))
  {
    hide Bit, BitMask, Marked, Cleared, Flipped;
    var mask, at := BitMask(bitIdx), bitIdx % ELEM_BITS;
    OneBitChanges(w, bitIdx, at);
    forall k | 0 <= k < ELEM_BITS && k != at
      ensures Bit(Marked(w, mask), k) == Bit(w, k)
      ensures Bit(Cleared(w, mask), k) == Bit(w, k)
      ensures Bit(Flipped(w, mask), k) == Bit(w, k)
    {
      OneBitChanges(w, bitIdx, k);
    }
  }

  class Bitmap {
    const bitCnt: nat
    const bits: array<ElemType>

    ghost predicate Valid() {
      bits.Length == ElemCnt(bitCnt)
    }

    /** The bitmap from the outside. */
    ghost function View(): (s: seq<bool>)
      requires Valid()
      reads bits
      ensures |s| == bitCnt
    {
      Unpacked(bits[..], bitCnt)
    }

    /** `bitmap_create`, when the allocation succeeds: the new elements hold anything at first. */
    constructor (bitCnt: nat, garbage: nat -> ElemType)
      ensures Valid() && this.bitCnt == bitCnt && fresh(bits) && View() == seq(bitCnt, _ => false)
    {
      this.bitCnt := bitCnt;
      bits := new ElemType[ElemCnt(bitCnt)](garbage);
      new;
      SetAll(false);
    }

    /** `bitmap_mark`. */
    method Mark(bitIdx: nat)
      requires Valid() && bitIdx < bitCnt
      modifies bits
      ensures View() == old(View())[bitIdx := true]
    {
      ElemCntIsEnough(bitCnt);
      var idx, mask := ElemIdx(bitIdx), BitMask(bitIdx);
      ChangedWord(bits[idx], bitIdx);
      WordChanged(bits[..], bitCnt, bitIdx, Marked(bits[idx], mask));
      bits[idx] := Marked(bits[idx], mask);
      assert bits[..] == old(bits[..])[idx := bits[idx]];
    }

    /** `bitmap_reset`. */
    method Reset(bitIdx: nat)
      requires Valid() && bitIdx < bitCnt
      modifies bits
      ensures View() == old(View())[bitIdx := false]
    {
      ElemCntIsEnough(bitCnt);
      var idx, mask := ElemIdx(bitIdx), BitMask(bitIdx);
      ChangedWord(bits[idx], bitIdx);
      WordChanged(bits[..], bitCnt, bitIdx, Cleared(bits[idx], mask));
      bits[idx] := Cleared(bits[idx], mask);
      assert bits[..] == old(bits[..])[idx := bits[idx]];
    }

    /** `bitmap_flip`. */
    method Flip(bitIdx: nat)
      requires Valid() && bitIdx < bitCnt
      modifies bits
      ensures View() == old(View())[bitIdx := !old(View())[bitIdx]]
    {
      ElemCntIsEnough(bitCnt);
      var idx, mask := ElemIdx(bitIdx), BitMask(bitIdx);
      ChangedWord(bits[idx], bitIdx);
      WordChanged(bits[..], bitCnt, bitIdx, Flipped(bits[idx], mask));
      bits[idx] := Flipped(bits[idx], mask);
      assert bits[..] == old(bits[..])[idx := bits[idx]];
    }

    /** `bitmap_set`. */
    method Set(idx: nat, value: bool)
      requires Valid() && idx < bitCnt
      modifies bits
      ensures View() == old(View())[idx := value]
    {
      if value {
        Mark(idx);
      } else {
        Reset(idx);
      }
    }

    /** `bitmap_test`. */
    method Test(idx: nat) returns (value: bool)
      requires Valid() && idx < bitCnt
      ensures value == View()[idx]
    {
      ElemCntIsEnough(bitCnt);
      TestIsBit(bits[ElemIdx(idx)], idx);
      value := And(bits[ElemIdx(idx)], BitMask(idx)) != 0;
    }

    /** `bitmap_set_multiple`. */
    method SetMultiple(start: nat, cnt: nat, value: bool)
      requires Valid() && start + cnt <= bitCnt
      modifies bits
      ensures View() == Filled(old(View()), start, cnt, value)
    {
      hide Unpacked;
      for i := 0 to cnt
        invariant View() == Filled(old(View()), start, i, value)
      {
        Set(start + i, value);
      }
    }

    /** `bitmap_set_all`. */
    method SetAll(value: bool)
      requires Valid()
      modifies bits
      ensures View() == seq(bitCnt, _ => value)
    {
      SetMultiple(0, bitCnt, value);
    }

    /** `bitmap_count`. */
    method CountBits(start: nat, cnt: nat, value: bool) returns (valueCnt: nat)
      requires Valid() && start + cnt <= bitCnt
      ensures valueCnt == Count(View()[start..start + cnt], value)
    {
      hide Count, Bitmap.View;
      valueCnt := 0;
      ghost var s := View();
      NothingToCount(s, start, value);
      for i := 0 to cnt
        invariant valueCnt == Count(s[start..start + i], value)
      {
        CountOneMore(s, start, start + i, value);
        var bit := Test(start + i);
        if bit == value {
          valueCnt := valueCnt + 1;
        }
      }
    }

    /** `bitmap_contains`. */
    method Contains(start: nat, cnt: nat, value: bool) returns (r: bool)
      requires Valid() && start + cnt <= bitCnt
      ensures r <==> !Block(View(), start, cnt, !value)
    {
      for i := 0 to cnt
        invariant Block(View(), start, i, !value)
      {
        var bit := Test(start + i);
        if bit == value {
          return true;
        }
      }
      return false;
    }

    /** `bitmap_any`. */
    method Any(start: nat, cnt: nat) returns (r: bool)
      requires Valid() && start + cnt <= bitCnt
      ensures r <==> exists i :: start <= i < start + cnt && View()[i]
    {
      r := Contains(start, cnt, true);
    }

    /** `bitmap_none`. */
    method NoneSet(start: nat, cnt: nat) returns (r: bool)
      requires Valid() && start + cnt <= bitCnt
      ensures r <==> forall i :: start <= i < start + cnt ==> !View()[i]
    {
      var any := Contains(start, cnt, true);
      r := !any;
    }

    /** `bitmap_all`. */
    method AllSet(start: nat, cnt: nat) returns (r: bool)
      requires Valid() && start + cnt <= bitCnt
      ensures r <==> forall i :: start <= i < start + cnt ==> View()[i]
    {
      var some := Contains(start, cnt, false);
      r := !some;
    }

    /** `bitmap_scan`, where `None` is `BITMAP_ERROR`. */
    method Scan(start: nat, cnt: nat, value: bool) returns (r: Option<nat>)
      requires Valid() && start <= bitCnt
      ensures r == FirstFit(View(), start, cnt, value)
    {
      hide Unpacked, Block;
      if cnt <= bitCnt {
        var last := bitCnt - cnt;
        var i := start;
        while i <= last
          invariant start <= i
          invariant FirstFit(View(), start, cnt, value) == FirstFit(View(), i, cnt, value)
          decreases last - i
        {
          var other := Contains(i, cnt, !value);
          if !other {
            return Some(i);
          }
          i := i + 1;
        }
      }
      return None;
    }

    /** `bitmap_scan_and_flip`. */
    method ScanAndFlip(start: nat, cnt: nat, value: bool) returns (r: Option<nat>)
      requires Valid() && start <= bitCnt
      modifies bits
      ensures r == FirstFit(old(View()), start, cnt, value)
      ensures View() == if r.None? then old(View()) else Filled(old(View()), r.value, cnt, !value)
    {
      r := Scan(start, cnt, value);
      if r.Some? {
        SetMultiple(r.value, cnt, !value);
      }
    }
  }

  /** A clear bitmap of `n` bits into which the first `i` bits of `s` were copied. */
  ghost function Copied(s: seq<bool>, i: nat, n: nat): seq<bool>
    requires i <= |s| <= n
  {
    seq(n, k => if 0 <= k < i then s[k] else false)
  }

  lemma CopyOneMore(s: seq<bool>, i: nat, n: nat)
    requires i < |s| <= n
    ensures Copied(s, i, n)[i := s[i]] == Copied(s, i + 1, n)
  {
  }

  lemma AllCopied(s: seq<bool>, size: nat)
    ensures Copied(s, |s|, |s| + size) == s + seq(size, _ => false)
  {
  }

  /** `bitmap_expand`. The parameter says whether the allocation succeeds. */
  method Expand(bitmap: Bitmap, size: nat, alloc: bool, garbage: nat -> ElemType) returns (r: Bitmap?)
    requires bitmap.Valid()
    ensures r == null <==> !alloc
    ensures r != null ==> fresh(r) && r.Valid() && r.View() == bitmap.View() + seq(size, _ => false)
  {
    hide Bitmap.View, Unpacked;
    if !alloc {
      return null;
    }
    var oldSize := bitmap.bitCnt;
    var b := new Bitmap(oldSize + size, garbage);
    ghost var s := bitmap.View();
    for i := 0 to oldSize
      invariant b.View() == Copied(s, i, oldSize + size)
    {
      CopyOneMore(s, i, oldSize + size);
      var bit := bitmap.Test(i);
      b.Set(i, bit);
    }
    AllCopied(s, size);
    r := b;
  }

  // ---------- The 32-bit instructions ----------

  /** `orl`, `andl` and `xorl` on a 64-bit element: only its low half changes. */
  function LowHalf(w: ElemType, result: ElemType): ElemType {
    WordPowers();
    SpliceBelow(w, result, 32, ELEM_BITS);
    Splice(w, result, 32)
  }

  /** The instruction has the documented effect iff it leaves the high half as the whole operation would. */
  lemma LowHalfSuffices(w: ElemType, result: ElemType)
    ensures LowHalf(w, result) == result <==> forall k :: 32 <= k < ELEM_BITS ==> Bit(result, k) == Bit(w, k)
  {
    WordPowers();
    hide Bit, Splice, Pow2;
    forall k | 0 <= k < ELEM_BITS
      ensures Bit(LowHalf(w, result), k) == Bit(if k < 32 then result else w, k)
    {
      BitOfSplice(w, result, 32, k);
    }
    if forall k :: 32 <= k < ELEM_BITS ==> Bit(result, k) == Bit(w, k) {
      BitsDetermine(LowHalf(w, result), result, ELEM_BITS);
    } else {
      var k :| 32 <= k < ELEM_BITS && Bit(result, k) != Bit(w, k);
      BitOfSplice(w, result, 32, k);
      assert LowHalf(w, result) != result;
    }
  }

  /** The 32-bit instructions do what the comments say exactly when the bit is in the low half
      of its element, or already has the value that it is to get. */
  lemma LiteralInstructions(w: ElemType, bitIdx: nat)
    ensures var mask, at := BitMask(bitIdx), bitIdx % ELEM_BITS;
            && (LowHalf(w, Marked(w, mask)) == Marked(w, mask) <==> at < 32 || Bit(w, at))
            && (LowHalf(w, Cleared(w, mask)) == Cleared(w, mask) <==> at < 32 || !Bit(w, at))
            && (LowHalf(w, Flipped(w, mask)) == Flipped(w, mask) <==> at < 32)
  {
    var mask, at := BitMask(bitIdx), bitIdx % ELEM_BITS;
    LowHalfSuffices(w, Marked(w, mask));
    LowHalfSuffices(w, Cleared(w, mask));
    LowHalfSuffices(w, Flipped(w, mask));
    ChangedWord(w, bitIdx);
  }
}

/** Runs of allocations and frees on one bitmap. */
module BitmapRuns {
  import opened Wrappers
  import opened BitSequences
  import opened RangeAllocation
  import opened Bitmaps

  /** The operations in order. Whatever they are, the set bits of the bitmap are the ones that the live ranges cover. */
  method Perform(b: Bitmap, given: seq<Range>, ops: seq<Op>) returns (live: seq<Range>)
    requires b.Valid() && Exact(b.View(), given)
    requires forall i :: 0 <= i < |ops| && ops[i].Allocate? ==> ops[i].start <= b.bitCnt
    modifies b.bits
    ensures (b.View(), live) == Run(old(b.View()), given, ops)
    ensures Exact(b.View(), live)
  {
    hide Exact, Bitmap.View, Bitmap.Valid;
    live := given;
    ghost var goal := Run(b.View(), live, ops);
    assert ops[0..] == ops;
    for n := 0 to |ops|
      invariant b.Valid() && Exact(b.View(), live)
      invariant Run(b.View(), live, ops[n..]) == goal
    {
      assert ops[n..][0] == ops[n] && ops[n..][1..] == ops[n + 1..];
      StepKeepsExact(b.View(), live, ops[n]);
      RangesFit(b.View(), live);
      match ops[n] {
        case Allocate(start, cnt) =>
          var at := b.ScanAndFlip(start, cnt, false);
          if at.Some? {
            live := live + [Range(at.value, cnt)];
          }
        case Free(k) =>
          if k < |live| {
            b.SetMultiple(live[k].start, live[k].cnt, false);
            live := live[..k] + live[k + 1..];
          }
      }
    }
  }
}
