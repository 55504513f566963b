/** The hash functions of `hash.c`, on 32-bit words. */
module HashFunctions {
  import opened Bits

  const WORD := 0x1_0000_0000
  const FNV_32_PRIME: Word := 16777619
  const FNV_32_BASIS: Word := 2166136261

  type Word = n: nat | n < WORD
  type Byte = n: nat | n < 256

  /** The product in unsigned 32-bit arithmetic. */
  function Times(x: Word, c: Word): Word {
    x * c % WORD
  }

  lemma ModUnique(x: int, q: int, r: Word)
    requires x == q * WORD + r
    ensures x % WORD == r
  {
  }

  /** Multiplication by a number that has an inverse modulo 2^32 can be undone. */
  lemma TimesCancels(x: Word, c: Word, inverse: Word, k: nat)
    requires c * inverse == 1 + k * WORD
    ensures Times(Times(x, c), inverse) == x
  {
    var p, r := x * c, Times(x, c);
    var q := p / WORD;
    assert r == p - q * WORD;
    calc {
      r * inverse;
      p * inverse - q * WORD * inverse;
      x * (c * inverse) - q * WORD * inverse;
      x * (1 + k * WORD) - q * WORD * inverse;
      (x * k - q * inverse) * WORD + x;
    }
    ModUnique(r * inverse, x * k - q * inverse, x);
  }

  // ---------- hash_int_2 ----------

  function XorShift(x: Word): Word {
    WordPowers();
    ShrBelow(x, 16, 16);
    XorBelow(Shr(x, 16), x, 32);
    Xor(Shr(x, 16), x)
  }

  lemma ShrOfXorShift(x: Word)
    ensures XorShift(x) == Xor(Shr(x, 16), x) && Shr(XorShift(x), 16) == Shr(x, 16)
  {
    hide Xor, Shr, Pow2;
    WordPowers();
    var high := Shr(x, 16);
    ShrBelow(x, 16, 16);
    ShrBelow(high, 16, 0);
    ShrOfXor(high, x, 16);
    XorWithZero(high);
  }

  /** The 16-bit shift and exclusive or is its own inverse. */
  lemma XorShiftTwice(x: Word)
    ensures XorShift(XorShift(x)) == x
  {
    hide Xor, Shr, Pow2, XorShift;
    ShrOfXorShift(x);
    ShrOfXorShift(XorShift(x));
    XorTwice(Shr(x, 16), x);
  }

  /** `hash_int_2`, on the bits of its argument. */
  function HashInt2(x: Word): Word {
    XorShift(Times(XorShift(Times(XorShift(x), 157)), 211))
  }

  /** The shifts are divisions by 2^16, and the factors are 157 first and 211 then. */
  lemma HashInt2Is(x: Word)
    ensures var a := Xor(x / 65536, x) * 157 % 0x1_0000_0000;
            var b := Xor(a / 65536, a) * 211 % 0x1_0000_0000;
            HashInt2(x) == Xor(b / 65536, b)
  {
    hide Xor, Shr;
    var a := Times(XorShift(x), 157);
    ShrIsDivision(x);
    ShrIsDivision(a);
    ShrIsDivision(Times(XorShift(a), 211));
  }

  lemma ShrIsDivision(x: Word)
    ensures Shr(x, 16) == x / 65536
  {
    WordPowers();
    var r := ShrParts(x, 16);
    QuotientIs(x, Shr(x, 16), 65536, r);
  }

  /** Undoes `HashInt2`: the two factors are the inverses of 211 and 157 modulo 2^32. */
  function HashInt2Inverse(h: Word): Word {
    XorShift(Times(XorShift(Times(XorShift(h), 1852331867)), 738624949))
  }

  /** `hash_int_2` maps the 32-bit words one-to-one onto themselves. */
  lemma HashInt2IsBijection(x: Word)
    ensures HashInt2Inverse(HashInt2(x)) == x
    ensures HashInt2(HashInt2Inverse(x)) == x
  {
    hide XorShift, Times;
    var y := Times(XorShift(x), 157);
    XorShiftTwice(Times(XorShift(y), 211));
    TimesCancels(XorShift(y), 211, 1852331867, 91);
    XorShiftTwice(y);
    TimesCancels(XorShift(x), 157, 738624949, 27);
    XorShiftTwice(x);
    var z := Times(XorShift(x), 1852331867);
    XorShiftTwice(Times(XorShift(z), 738624949));
    TimesCancels(XorShift(z), 738624949, 157, 27);
    XorShiftTwice(z);
    TimesCancels(XorShift(x), 1852331867, 211, 91);
  }

  // ---------- Fowler-Noll-Vo ----------

  function Step(h: Word, b: Byte): Word {
    WordPowers();
    XorBelow(Times(h, FNV_32_PRIME), b, 32);
    Xor(Times(h, FNV_32_PRIME), b)
  }

  /** The hash after the bytes of `s`, when it was `h` before them. */
  function Fnv(h: Word, s: seq<Byte>): Word
    decreases |s|
  {
    if s == [] then h else Fnv(Step(h, s[0]), s[1..])
  }

  lemma {:induction false} FnvConcat(h: Word, s: seq<Byte>, t: seq<Byte>)
    ensures Fnv(h, s + t) == Fnv(Fnv(h, s), t)
    decreases |s|
  {
    if s == [] {
      assert s + t == t;
    } else {
      assert (s + t)[1..] == s[1..] + t;
      FnvConcat(Step(h, s[0]), s[1..], t);
    }
  }

  /** What one more byte does to a hash: multiplication by 16777619 modulo 2^32, and then an exclusive or. */
  lemma FnvOfNext(h: Word, s: seq<Byte>, b: Byte)
    ensures Fnv(h, []) == h
    ensures Fnv(h, s + [b]) == Xor(Fnv(h, s) * 16777619 % 0x1_0000_0000, b)
  {
    FnvConcat(h, s, [b]);
    assert [b][1..] == [];
    assert Fnv(Step(Fnv(h, s), b), []) == Step(Fnv(h, s), b);
  }

  /** `hash_bytes`. */
  method HashBytes(buf: seq<Byte>) returns (hash: Word)
    ensures hash == Fnv(2166136261, buf)
  {
    hash := FNV_32_BASIS;
    var i, size := 0, |buf|;
    assert buf[0..] == buf;
    while size > 0
      invariant 0 <= size && 0 <= i && i + size == |buf|
      invariant Fnv(hash, buf[i..]) == Fnv(FNV_32_BASIS, buf)
    {
      assert buf[i..][1..] == buf[i + 1..];
      hash := Step(hash, buf[i]);
      i, size := i + 1, size - 1;
    }
  }

  /** The position of the first null byte at or after `i`. */
  ghost function StrLen(memory: seq<Byte>, i: nat): (n: nat)
    requires i <= |memory| && 0 in memory[i..]
    ensures i <= n < |memory| && memory[n] == 0 && forall j :: i <= j < n ==> memory[j] != 0
    decreases |memory| - i
  {
    if memory[i] == 0 then i
    else
      assert memory[i..] == [memory[i]] + memory[i + 1..];
      StrLen(memory, i + 1)
  }

  /** `hash_string`: the hash of the bytes before the first null byte. */
  method HashString(memory: seq<Byte>) returns (hash: Word)
    requires 0 in memory[0..]
    ensures hash == Fnv(2166136261, memory[..StrLen(memory, 0)])
  {
    ghost var n := StrLen(memory, 0);
    hash := FNV_32_BASIS;
    var i := 0;
    assert memory[0..n] == memory[..n];
    while memory[i] != 0
      invariant 0 <= i <= n
      invariant Fnv(hash, memory[i..n]) == Fnv(FNV_32_BASIS, memory[..n])
      decreases n - i
    {
      assert memory[i..n][1..] == memory[i + 1..n];
      hash := Step(hash, memory[i]);
      i := i + 1;
    }
  }

  lemma StepKeepsDistinct(g: Word, h: Word, b: Byte)
    requires g != h
    ensures Step(g, b) != Step(h, b)
  {
    XorTwice(b, Times(g, FNV_32_PRIME));
    XorTwice(b, Times(h, FNV_32_PRIME));
    hide Times, Xor;
    TimesCancels(g, FNV_32_PRIME, 899433627, 3513497);
    TimesCancels(h, FNV_32_PRIME, 899433627, 3513497);
  }

  /** Different hashes stay different whatever bytes follow. */
  lemma {:induction false} FnvKeepsDistinct(g: Word, h: Word, s: seq<Byte>)
    requires g != h
    ensures Fnv(g, s) != Fnv(h, s)
    decreases |s|
  {
    if s != [] {
      StepKeepsDistinct(g, h, s[0]);
      FnvKeepsDistinct(Step(g, s[0]), Step(h, s[0]), s[1..]);
    }
  }

  /** Buffers of one length that differ in exactly one byte have different hashes. */
  lemma OneByteChangesHash(s: seq<Byte>, t: seq<Byte>, k: nat)
    requires |s| == |t| && k < |s| && s[k] != t[k]
    requires forall i :: 0 <= i < |s| && i != k ==> s[i] == t[i]
    ensures Fnv(FNV_32_BASIS, s) != Fnv(FNV_32_BASIS, t)
  {
    var p, r := s[..k], s[k + 1..];
    assert s == p + ([s[k]] + r) && t == p + ([t[k]] + r);
    var h := Fnv(FNV_32_BASIS, p);
    FnvConcat(FNV_32_BASIS, p, [s[k]] + r);
    FnvConcat(FNV_32_BASIS, p, [t[k]] + r);
    assert ([s[k]] + r)[1..] == r && ([t[k]] + r)[1..] == r;
    XorTwice(Times(h, FNV_32_PRIME), s[k]);
    XorTwice(Times(h, FNV_32_PRIME), t[k]);
    FnvKeepsDistinct(Step(h, s[k]), Step(h, t[k]), r);
  }
}
