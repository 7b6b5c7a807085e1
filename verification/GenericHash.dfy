/** The scalar hash functions, and the table geometry that they make lawful. */
module GenericHash {
  import opened HashScheme

  // ------------------------------------------------------------ word operations

  function And(a: Word, b: Word): Word {
    a & b
  }

  function Xor(a: Word, b: Word): Word {
    a ^ b
  }

  function Half(a: Word): Word {
    a >> 1
  }

  /** The lowest bit. */
  predicate Odd(a: Word) {
    a & 1 == 1
  }

  /** m with one more bit below. */
  function Grow(m: Word): Word {
    (m << 1) | 1
  }

  /** The 32-bit product. */
  function Times(a: Word, b: Word): Word {
    a * b
  }

  /** One mixing step. */
  function Mix(h: Word, inc: Word): Word {
    Times(Xor(h, inc), 2246822519)
  }

  /** Because the increment of the first step and the multiplier are odd, that step flips the lowest bit. */
  lemma MixFlips(h: Word)
    ensures Odd(Mix(h, 1)) != Odd(h)
  {
    assert ((h ^ 1) * 2246822519) & 1 != h & 1;
    TwoBits(h);
    TwoBits((h ^ 1) * 2246822519);
  }

  lemma TwoBits(h: Word)
    ensures h & 1 == 0 || h & 1 == 1
  {
  }

  /** Words that agree under an odd mask agree in their lowest bit. */
  lemma OddMask(a: Word, b: Word, mask: Word)
    requires Odd(mask) && And(a, mask) == And(b, mask)
    ensures Odd(a) == Odd(b)
  {
  }

  lemma XorNonZero(a: Word, b: Word, mask: Word)
    requires And(a, mask) != And(b, mask)
    ensures Xor(a, b) != 0
  {
  }

  lemma XorBack(a: Word, b: Word)
    ensures Xor(Xor(a, b), a) == b && Xor(Xor(a, b), b) == a
  {
  }

  lemma GrowOdd(m: Word)
    ensures Odd(Grow(m))
  {
    assert ((m << 1) | 1) & 1 == 1;
  }

  // ------------------------------------------------------------ the re-mix loop

  /** What the loop computes: one more mixing step if both halves agree under the mask. */
  function Separated(h0: Word, h1: Word, mask: Word): Hash {
    Hash(h0, if And(h0, mask) == And(h1, mask) then Mix(h1, 1) else h1)
  }

  lemma SeparatedDiffers(h0: Word, h1: Word, mask: Word)
    requires Odd(mask)
    ensures var h := Separated(h0, h1, mask);
            And(h.h0, mask) != And(h.h1, mask) && Xor(h.h0, h.h1) != 0
  {
    hide Times, And, Xor, Mix, Odd;
    var h := Separated(h0, h1, mask);
    if And(h0, mask) == And(h1, mask) {
      MixFlips(h1);
      OddMask(h0, h1, mask);
      if And(h.h0, mask) == And(h.h1, mask) {
        OddMask(h.h0, h.h1, mask);
      }
    }
    XorNonZero(h.h0, h.h1, mask);
  }

  /** Mixes h1 until the halves name different buckets; for an odd mask one pass is always enough. */
  method Remix(h0: Word, start: Word, mask: Word) returns (h1: Word)
    requires Odd(mask)
    ensures Hash(h0, h1) == Separated(h0, start, mask)
    ensures And(h0, mask) != And(h1, mask) && Xor(h0, h1) != 0
  {
    hide Times, And, Xor, Mix, Odd;
    SeparatedDiffers(h0, start, mask);
    var bk0 := And(h0, mask);
    h1 := start;
    var inc: Word := 1;
    while And(h1, mask) == bk0
      invariant (h1 == start && inc == 1) || Hash(h0, h1) == Separated(h0, start, mask)
      invariant And(h1, mask) != bk0 ==> Hash(h0, h1) == Separated(h0, start, mask)
      decreases if And(h1, mask) == bk0 then 1 else 0
    {
      h1 := Mix(h1, inc);
      inc := inc + 1;
    }
  }

  // ------------------------------------------------------------ the three hashes

  /** Multiplying t with inv gives a: how a product with an odd number is undone. */
  predicate Undoes(t: Word, inv: Word, a: Word) {
    t * inv == a
  }

  lemma UndoneOnce(t: Word, inv: Word, a: Word, b: Word)
    requires Undoes(t, inv, a) && Undoes(t, inv, b)
    ensures a == b
  {
  }

  lemma XorCancel(a: Word, b: Word, c: Word)
    ensures Xor(a, c) == Xor(b, c) ==> a == b
    ensures Xor(c, a) == Xor(c, b) ==> a == b
  {
  }

  lemma XorTwice(a: Word, b: Word)
    ensures Xor(a, Xor(b, a)) == b
  {
  }

  lemma PrimeUndone(x: Word)
    ensures Undoes(Times(x, 2246822519), 3066638151, x)
  {
    assert Undoes(x * 2246822519, 3066638151, x);
    hide Undoes;
  }

  lemma KnuthUndone(x: Word)
    ensures Undoes(Times(x, 2654435761), 244002641, x)
  {
    assert Undoes(x * 2654435761, 244002641, x);
    hide Undoes;
  }

  lemma FnvPrimeUndone(x: Word)
    ensures Undoes(Times(x, 16777619), 899433627, x)
  {
    assert Undoes(x * 16777619, 899433627, x);
    hide Undoes;
  }

  lemma MixUndone(h: Word, inc: Word)
    ensures Undoes(Mix(h, inc), 3066638151, Xor(h, inc))
  {
    hide Times, Undoes, Xor;
    PrimeUndone(Xor(h, inc));
  }

  /** The second half is start unless both halves would agree under the mask; then one mixing step was taken, which can be undone. */
  predicate SecondFrom(h: Hash, start: Word, mask: Word) {
    if And(h.h0, mask) != And(start, mask) then h.h1 == start else Undoes(h.h1, 3066638151, Xor(start, 1))
  }

  lemma SeparatedFrom(h0: Word, start: Word, mask: Word)
    ensures SecondFrom(Separated(h0, start, mask), start, mask)
  {
    hide Times, Undoes, Mix, And, Xor;
    MixUndone(start, 1);
  }

  function GenU32(key: Word, mask: Word): Hash {
    Separated(Times(key, 2654435761), Mix(key, Times(key, 2654435761)), mask)
  }

  predicate Sums(x: Word, y: Word, z: Word) {
    x + y == z
  }

  lemma SumSplits(x: Word, y: Word)
    ensures Sums(x * 244002641, y * 244002641, (x + y) * 244002641) && Undoes(x + y, 244002641, (x + y) * 244002641)
  {
  }

  lemma SumIs(x: Word, y: Word, z: Word)
    requires Sums(x, y, z)
    ensures x + y == z
  {
  }

  /** What the product of a sum undoes to. */
  lemma SumUndone(x: Word, y: Word, a: Word, b: Word)
    requires Undoes(x, 244002641, a) && Undoes(y, 244002641, b)
    ensures Undoes(x + y, 244002641, a + b)
  {
    hide Undoes, Sums;
    UndoneIs(x, a);
    UndoneIs(y, b);
    SumSplits(x, y);
    SumIs(a, b, (x + y) * 244002641);
  }

  lemma KnuthRedone(t: Word)
    ensures Undoes(t * 244002641, 2654435761, t)
  {
  }

  lemma UndoneIs(t: Word, a: Word)
    requires Undoes(t, 244002641, a)
    ensures t * 244002641 == a
  {
  }

  lemma KnuthUnique(t: Word, u: Word, a: Word)
    requires Undoes(t, 244002641, a) && Undoes(u, 244002641, a)
    ensures t == u
  {
    hide Undoes;
    KnuthRedone(t);
    KnuthRedone(u);
    UndoneIs(t, a);
    UndoneIs(u, a);
    UndoneOnce(a, 2654435761, t, u);
  }

  /** Multiplicative hashing: the first half of the 32-bit hash is linear in the key, and different keys have different ones. */
  lemma KnuthLinear(a: Word, b: Word, mask: Word)
    ensures GenU32(a + b, mask).h0 == GenU32(a, mask).h0 + GenU32(b, mask).h0
    ensures GenU32(a, mask).h0 == GenU32(b, mask).h0 ==> a == b
  {
    hide Times, Mix, And, Undoes;
    KnuthUndone(a);
    KnuthUndone(b);
    KnuthUndone(a + b);
    SumUndone(GenU32(a, mask).h0, GenU32(b, mask).h0, a, b);
    KnuthUnique(GenU32(a + b, mask).h0, GenU32(a, mask).h0 + GenU32(b, mask).h0, a + b);
    if GenU32(a, mask).h0 == GenU32(b, mask).h0 {
      UndoneOnce(GenU32(a, mask).h0, 244002641, a, b);
    }
  }

  lemma KnuthKnown(mask: Word)
    ensures GenU32(0, mask).h0 == 0 && GenU32(1, mask).h0 == 2654435761 && GenU32(2, mask).h0 == 1013904226
  {
    hide Mix, And;
  }

  method HashU32(key: Word, mask: Word) returns (h: Hash)
    requires Odd(mask)
    ensures h == GenU32(key, mask)
    ensures And(h.h0, mask) != And(h.h1, mask) && Xor(h.h0, h.h1) != 0
    ensures Undoes(h.h0, 244002641, key) && SecondFrom(h, Mix(key, h.h0), mask)
  {
    hide Times, And, Xor, Mix, Odd, Separated, SecondFrom, Undoes;
    KnuthUndone(key);
    SeparatedFrom(Times(key, 2654435761), Mix(key, Times(key, 2654435761)), mask);
    var h0 := Times(key, 2654435761);
    var h1 := Remix(h0, Mix(key, h0), mask);
    h := Hash(h0, h1);
  }

  /** The start values for a 64-bit key given as its two halves. */
  function Start64(lo: Word, hi: Word): Hash {
    var h0 := Times(Xor(lo, Times(hi, 2654435761)), 2246822519);
    Hash(h0, Xor(Times(Xor(hi, Times(lo, 2246822519)), 2654435761), h0))
  }

  function GenU64(lo: Word, hi: Word, mask: Word): Hash {
    Separated(Start64(lo, hi).h0, Start64(lo, hi).h1, mask)
  }

  /** Each start value determines a mixture of both halves of the key. */
  lemma StartUndone(lo: Word, hi: Word)
    ensures Undoes(Start64(lo, hi).h0, 3066638151, Xor(lo, Times(hi, 2654435761)))
    ensures Undoes(Xor(Start64(lo, hi).h0, Start64(lo, hi).h1), 244002641, Xor(hi, Times(lo, 2246822519)))
  {
    hide Times, Undoes, Xor;
    PrimeUndone(Xor(lo, Times(hi, 2654435761)));
    KnuthUndone(Xor(hi, Times(lo, 2246822519)));
    XorTwice(Start64(lo, hi).h0, Times(Xor(hi, Times(lo, 2246822519)), 2654435761));
  }

  /** With one half of the key fixed, different other halves give different first halves of the hash. */
  lemma HalvesApart(lo: Word, hi: Word, lo': Word, hi': Word, mask: Word)
    requires lo == lo' || hi == hi'
    ensures GenU64(lo, hi, mask).h0 == GenU64(lo', hi', mask).h0 ==> lo == lo' && hi == hi'
  {
    hide Times, Undoes, Start64, Mix, And, Xor;
    StartUndone(lo, hi);
    StartUndone(lo', hi');
    if GenU64(lo, hi, mask).h0 == GenU64(lo', hi', mask).h0 {
      UndoneOnce(Start64(lo, hi).h0, 3066638151, Xor(lo, Times(hi, 2654435761)), Xor(lo', Times(hi', 2654435761)));
      XorCancel(lo, lo', Times(hi, 2654435761));
      XorCancel(Times(hi, 2654435761), Times(hi', 2654435761), lo);
      KnuthUndone(hi);
      KnuthUndone(hi');
      if lo == lo' {
        UndoneOnce(Times(hi, 2654435761), 244002641, hi, hi');
      }
    }
  }

  method HashU64(lo: Word, hi: Word, mask: Word) returns (h: Hash)
    requires Odd(mask)
    ensures h == GenU64(lo, hi, mask)
    ensures And(h.h0, mask) != And(h.h1, mask) && Xor(h.h0, h.h1) != 0
    ensures Undoes(h.h0, 3066638151, Xor(lo, Times(hi, 2654435761)))
    ensures var start := Start64(lo, hi).h1;
            Undoes(Xor(h.h0, start), 244002641, Xor(hi, Times(lo, 2246822519))) && SecondFrom(h, start, mask)
  {
    hide Times, And, Xor, Mix, Odd, Separated, SecondFrom, Start64, Undoes;
    StartUndone(lo, hi);
    var h0, h1 := Start64(lo, hi).h0, Start64(lo, hi).h1;
    SeparatedFrom(h0, h1, mask);
    h1 := Remix(h0, h1, mask);
    h := Hash(h0, h1);
  }

  function FnvStep(h: Word, byte: bv8): Word {
    Times(Xor(h, byte as Word), 16777619)
  }

  /** FNV-1a of a byte string. */
  function Fnv(bytes: seq<bv8>): Word {
    if bytes == [] then 2166136261 else FnvStep(Fnv(bytes[..|bytes| - 1]), bytes[|bytes| - 1])
  }

  /** The published values for the empty string, "a" and "fo". */
  lemma FnvKnown()
    ensures Fnv([]) == 0x811c9dc5 && Fnv([0x61]) == 0xe40c292c && Fnv([0x66, 0x6f]) == 0x6222e842
  {
    assert [0x61 as bv8][..0] == [] && [0x66 as bv8, 0x6f][..1] == [0x66] && [0x66 as bv8][..0] == [];
  }

  lemma FnvUndone(h: Word, x: bv8)
    ensures Undoes(FnvStep(h, x), 899433627, Xor(h, x as Word))
  {
    hide Times, Undoes, Xor;
    FnvPrimeUndone(Xor(h, x as Word));
  }

  lemma FnvStepApart(h: Word, h': Word, x: bv8, y: bv8)
    requires h == h' || x == y
    ensures FnvStep(h, x) == FnvStep(h', y) ==> h == h' && x == y
  {
    hide FnvStep, Xor;
    if FnvStep(h, x) == FnvStep(h', y) {
      FnvStepSame(h, h', x, y);
      WordsApart(h, h', x as Word, y as Word);
      ByteCancel(x, y);
    }
  }

  lemma FnvStepSame(h: Word, h': Word, x: bv8, y: bv8)
    requires FnvStep(h, x) == FnvStep(h', y)
    ensures Xor(h, x as Word) == Xor(h', y as Word)
  {
    hide Times, Undoes, FnvStep, Xor;
    FnvUndone(h, x);
    FnvUndone(h', y);
    UndoneOnce(FnvStep(h, x), 899433627, Xor(h, x as Word), Xor(h', y as Word));
  }

  lemma WordsApart(a: Word, a': Word, b: Word, b': Word)
    requires (a == a' || b == b') && Xor(a, b) == Xor(a', b')
    ensures a == a' && b == b'
  {
  }

  lemma ByteCancel(x: bv8, y: bv8)
    ensures x as Word == y as Word ==> x == y
  {
  }

  /** Two strings of one length that differ in a single byte never collide. */
  lemma {:induction false} FnvApart(a: seq<bv8>, b: seq<bv8>, i: nat)
    requires |a| == |b| && i < |a| && a[i] != b[i] && forall j :: 0 <= j < |a| && j != i ==> a[j] == b[j]
    ensures Fnv(a) != Fnv(b)
  {
    hide FnvStep;
    var n := |a| - 1;
    if i == n {
      assert a[..n] == b[..n];
    } else {
      FnvApart(a[..n], b[..n], i);
    }
    FnvStepApart(Fnv(a[..n]), Fnv(b[..n]), a[n], b[n]);
  }

  function GenBytes(bytes: seq<bv8>, mask: Word): Hash {
    Separated(Fnv(bytes), Mix(Fnv(bytes), 0x5bd1e995), mask)
  }

  method HashBytes(bytes: seq<bv8>, mask: Word) returns (h: Hash)
    requires Odd(mask)
    ensures h == GenBytes(bytes, mask)
    ensures And(h.h0, mask) != And(h.h1, mask) && Xor(h.h0, h.h1) != 0
    ensures h.h0 == Fnv(bytes)
    ensures SecondFrom(h, Mix(h.h0, 0x5bd1e995), mask)
  {
    hide Times, And, Xor, Mix, Odd, Separated, FnvStep, SecondFrom, Undoes;
    SeparatedFrom(Fnv(bytes), Mix(Fnv(bytes), 0x5bd1e995), mask);
    var h0 := 2166136261;
    for i := 0 to |bytes|
      invariant h0 == Fnv(bytes[..i])
    {
      assert bytes[..i + 1][..i] == bytes[..i];
      h0 := FnvStep(h0, bytes[i]);
    }
    assert bytes[..|bytes|] == bytes;
    var h1 := Remix(h0, Mix(h0, 0x5bd1e995), mask);
    h := Hash(h0, h1);
  }

  // ------------------------------------------------------------ bucket numbers

  /** 2^k - 1. */
  function LowMask(k: nat): Word {
    if k == 0 then 0 else Grow(LowMask(k - 1))
  }

  function Pow2(k: nat): (r: nat)
    ensures 1 <= r
  {
    if k == 0 then 1 else 2 * Pow2(k - 1)
  }

  /** The number that the lowest k bits of a word spell. */
  function Low(w: Word, k: nat): (r: nat)
    ensures r < Pow2(k)
  {
    if k == 0 then 0 else (if Odd(w) then 1 else 0) + 2 * Low(Half(w), k - 1)
  }

  /** The bucket number is the masked word read as a number. */
  lemma {:induction false} LowMasked(w: Word, k: nat, width: nat)
    requires k <= width
    ensures Low(And(w, LowMask(k)), width) == Low(w, k)
  {
    if k == 0 {
      AndNone(w);
      LowNone(width);
    } else {
      LowMasked(Half(w), k - 1, width - 1);
      MaskStep(w, LowMask(k - 1));
      JoinBack(w, LowMask(k - 1));
      hide And, Half, Odd, Grow, Join;
    }
  }

  lemma AndNone(w: Word)
    ensures And(w, 0) == 0
  {
  }

  lemma {:induction false} LowNone(width: nat)
    ensures Low(0, width) == 0
  {
    if width > 0 {
      LowNone(width - 1);
    }
  }

  /** Masking with one more bit sees the lowest bit and masks the rest. */
  lemma MaskSplit(a: Word, b: Word, m: Word)
    ensures And(a, Grow(m)) == And(b, Grow(m)) <==> Odd(a) == Odd(b) && And(Half(a), m) == And(Half(b), m)
  {
    MaskStep(a, m);
    MaskStep(b, m);
    JoinBack(a, m);
    JoinBack(b, m);
    hide And, Half, Odd, Grow, Join;
  }

  /** x with a new lowest bit. */
  function Join(x: Word, bit: bool): Word {
    if bit then (x << 1) | 1 else x << 1
  }

  lemma MaskStep(a: Word, m: Word)
    ensures And(a, Grow(m)) == Join(And(Half(a), m), Odd(a))
  {
    TwoBits(a);
    if Odd(a) {
      OddStep(a, m);
    } else {
      EvenStep(a, m);
    }
  }

  lemma OddStep(a: Word, m: Word)
    requires a & 1 == 1
    ensures a & ((m << 1) | 1) == (((a >> 1) & m) << 1) | 1
  {
  }

  lemma EvenStep(a: Word, m: Word)
    requires a & 1 == 0
    ensures a & ((m << 1) | 1) == ((a >> 1) & m) << 1
  {
  }

  lemma JoinBack(a: Word, m: Word)
    ensures var x := And(Half(a), m);
            Half(Join(x, Odd(a))) == x && Odd(Join(x, Odd(a))) == Odd(a)
  {
    var x := (a >> 1) & m;
    assert ((x << 1) | 1) & 1 == 1 && (x << 1) & 1 == 0;
    assert ((((a >> 1) & m) << 1) | 1) >> 1 == (a >> 1) & m;
    assert (((a >> 1) & m) << 1) >> 1 == (a >> 1) & m;
  }

  /** Two words have the same bucket number exactly when they agree under the mask. */
  lemma {:induction false} LowIsMasked(a: Word, b: Word, k: nat)
    ensures Low(a, k) == Low(b, k) <==> And(a, LowMask(k)) == And(b, LowMask(k))
    decreases k
  {
    hide And, Half, Odd, Grow;
    if k == 0 {
      AndZero(a, b);
    } else {
      LowIsMasked(Half(a), Half(b), k - 1);
      MaskSplit(a, b, LowMask(k - 1));
    }
  }

  lemma AndZero(a: Word, b: Word)
    ensures And(a, 0) == And(b, 0)
  {
  }

  // ------------------------------------------------------------ a lawful table

  /** A table of 2^k buckets under a hash function for its mask. */
  function MaskedScheme(k: nat, hash: Key -> Hash): Scheme {
    Scheme(Pow2(k), hash, Xor, (w: Word) => Low(w, k))
  }

  /** Both halves name different buckets of a table of 2^k. */
  predicate Spread(h: Hash, k: nat) {
    And(h.h0, LowMask(k)) != And(h.h1, LowMask(k))
  }

  /** A hash whose halves differ under the mask is all that a table needs. */
  lemma SpreadLawful(k: nat, hash: Key -> Hash)
    requires forall key :: Spread(hash(key), k)
    ensures MaskedScheme(k, hash).Lawful()
  {
    hide Times, And, Xor, Low;
    var sc := MaskedScheme(k, hash);
    forall key: Key
      ensures sc.KeyLaws(key)
    {
      var h := hash(key);
      assert Spread(h, k);
      XorNonZero(h.h0, h.h1, LowMask(k));
      LowIsMasked(h.h0, h.h1, k);
      XorBack(h.h0, h.h1);
    }
  }

  /** Every hash that ends in the re-mix loop spreads, whatever its start values. */
  lemma RemixSpreads(k: nat, h0: Word, h1: Word)
    requires 1 <= k
    ensures Spread(Separated(h0, h1, LowMask(k)), k)
  {
    hide Times, And, Xor, Odd, Grow, Separated;
    GrowOdd(LowMask(k - 1));
    SeparatedDiffers(h0, h1, LowMask(k));
  }

  /**
   * With each of the generic hashes every table of at least two buckets is lawful: two distinct
   * candidates in range, and a fingerprint other than 0 that leads from each to the other.
   */
  lemma GenericLawful(k: nat, word: Key -> Word, halves: Key -> (Word, Word), bytes: Key -> seq<bv8>)
    requires 1 <= k
    ensures MaskedScheme(k, (key: Key) => GenU32(word(key), LowMask(k))).Lawful()
    ensures MaskedScheme(k, (key: Key) => GenU64(halves(key).0, halves(key).1, LowMask(k))).Lawful()
    ensures MaskedScheme(k, (key: Key) => GenBytes(bytes(key), LowMask(k))).Lawful()
  {
    hide And, Mix, Separated, Start64, Spread, Fnv;
    forall key: Key
      ensures Spread(GenU32(word(key), LowMask(k)), k)
      ensures Spread(GenU64(halves(key).0, halves(key).1, LowMask(k)), k)
      ensures Spread(GenBytes(bytes(key), LowMask(k)), k)
    {
      GenericSpreads(k, word(key), halves(key).0, halves(key).1, bytes(key));
    }
    hide GenU32, GenU64, GenBytes;
    SpreadLawful(k, (key: Key) => GenU32(word(key), LowMask(k)));
    SpreadLawful(k, (key: Key) => GenU64(halves(key).0, halves(key).1, LowMask(k)));
    SpreadLawful(k, (key: Key) => GenBytes(bytes(key), LowMask(k)));
  }

  lemma GenericSpreads(k: nat, word: Word, lo: Word, hi: Word, bytes: seq<bv8>)
    requires 1 <= k
    ensures Spread(GenU32(word, LowMask(k)), k)
    ensures Spread(GenU64(lo, hi, LowMask(k)), k)
    ensures Spread(GenBytes(bytes, LowMask(k)), k)
  {
    hide Times, And, Mix, Separated, Start64, Spread, Fnv;
    RemixSpreads(k, Times(word, 2654435761), Mix(word, Times(word, 2654435761)));
    RemixSpreads(k, Start64(lo, hi).h0, Start64(lo, hi).h1);
    RemixSpreads(k, Fnv(bytes), Mix(Fnv(bytes), 0x5bd1e995));
  }

  // ------------------------------------------------------------ table size

  /** Copies every set bit 2^step places down. */
  function Fold(n: Word, step: nat): Word {
    match step
    case 0 => n | (n >> 1)
    case 1 => n | (n >> 2)
    case 2 => n | (n >> 4)
    case 3 => n | (n >> 8)
    case _ => n | (n >> 16)
  }

  /** All bits from the highest set one down. */
  function Smear(n: Word): Word {
    Fold(Fold(Fold(Fold(Fold(n, 0), 1), 2), 3), 4)
  }

  lemma SmearOk(n: Word)
    requires n != 0
    ensures Covers(n, Smear(n))
  {
  }

  /** s is the least number of the form 2^j - 1 that is not below n. */
  predicate Covers(n: Word, s: Word) {
    n <= s && s >> 1 < n && s & (s + 1) == 0
  }

  /** A power of two of at least 2. */
  predicate TableSize(n: Word) {
    2 <= n && n & (n - 1) == 0
  }

  /** n buckets of 16 slots are at most half full with maxEntries entries. */
  predicate Roomy(maxEntries: Word, n: Word) {
    maxEntries == 0 || (maxEntries - 1) / 8 < n
  }

  /** Rounding up to a multiple of eight does not wrap around. */
  predicate Roundable(maxEntries: Word) {
    maxEntries <= 0xFFFF_FFF8
  }

  /** One less than the number of groups of eight, at least 1. */
  function Need(maxEntries: Word): Word {
    var n := (maxEntries + 7) / 8;
    (if n < 2 then 2 else n) - 1
  }

  /**
   * The recommended number of buckets: a power of two that is large enough and whose half is not. The
   * rounding up wraps around for the seven largest arguments, and exactly for those the answer is too small.
   */
  method NbBkHint(maxEntries: Word) returns (n: Word)
    ensures TableSize(n)
    ensures Roomy(maxEntries, n) <==> Roundable(maxEntries)
    ensures Roomy(maxEntries, n) ==> n == 2 || !Roomy(maxEntries, Half(n))
    ensures !Roundable(maxEntries) ==> n == 2
  {
    hide TableSize, Roomy, Fold, Half, Need, Roundable, Covers;
    var need := Need(maxEntries);
    NeedOk(maxEntries);
    n := Fold(need, 0);
    n := Fold(n, 1);
    n := Fold(n, 2);
    n := Fold(n, 3);
    n := Fold(n, 4);
    SmearOk(need);
    HintOk(maxEntries, n);
    n := n + 1;
  }

  lemma NeedOk(maxEntries: Word)
    ensures Need(maxEntries) != 0
  {
  }

  lemma HintOk(maxEntries: Word, s: Word)
    requires Covers(Need(maxEntries), s)
    ensures TableSize(s + 1)
    ensures Roomy(maxEntries, s + 1) <==> Roundable(maxEntries)
    ensures Roomy(maxEntries, s + 1) ==> s + 1 == 2 || !Roomy(maxEntries, Half(s + 1))
    ensures !Roundable(maxEntries) ==> s + 1 == 2
  {
  }
}
