/** The word arithmetic that the hash tables rest on. */
module HashScheme {

  /** A 32-bit machine word. */
  type Word = bv32

  /** Keys are only compared for equality and hashed. */
  type Key(==, !new)

  /** The two 32-bit halves that a hash function returns. */
  datatype Hash = Hash(h0: Word, h1: Word)

  /**
   * One table geometry: nbBk buckets, the hash function for their mask, the exclusive or of two words
   * and the bucket number w & mask of a word.
   */
  datatype Scheme = Scheme(nbBk: nat, hash: Key -> Hash, xor: (Word, Word) -> Word, bucket: Word -> nat) {

    function Fp(k: Key): Word {
      xor(hash(k).h0, hash(k).h1)
    }

    function B0(k: Key): nat {
      bucket(hash(k).h0)
    }

    function B1(k: Key): nat {
      bucket(hash(k).h1)
    }

    /** The candidate bucket of k other than x. */
    function Alt(k: Key, x: nat): nat {
      if x == B0(k) then B1(k) else B0(k)
    }

    /** What the tables need from the words: the candidates differ and the fingerprint leads from one to the other. */
    ghost predicate Lawful() {
      && (forall w :: bucket(w) < nbBk)
      && forall k :: KeyLaws(k)
    }

    ghost predicate KeyLaws(k: Key) {
      var h := hash(k);
      && bucket(h.h0) != bucket(h.h1)
      && xor(h.h0, h.h1) != 0
      && xor(xor(h.h0, h.h1), h.h0) == h.h1
      && xor(xor(h.h0, h.h1), h.h1) == h.h0
    }
  }
}
