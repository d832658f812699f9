/**
  The digest-keyed maps of the profiler (include/map_helpers.hpp): the
  16-byte `HashDigest` key, the ways two digests are compared, the
  32-bit hashes the maps bucket digests by, and the `NodeID` value stored
  against a digest.
*/
module MapHelpers {
  import opened LittleEndian
  import opened Murmur3

  /** HashDigest (lines 7-9): sixteen bytes, as `hash` writes them. */
  type HashDigest = d: seq<bv8> | |d| == 16 witness Zeros(16)

  /** The four 32-bit words of a digest, read least significant byte
      first: word i is what reading the digest as `uint32_t`s gives at
      index i. */
  function DigestWord(d: HashDigest, i: nat): bv32
    requires i < 4
  {
    Load32(d, 4 * i)
  }

  // =====================================================================
  // digest_to_u32 (lines 11-15)

  /** The four words of the digest folded together with xor. */
  function DigestToU32(d: HashDigest): (r: bv32)
  {
    XorFold(DigestWord(d, 0), DigestWord(d, 1), DigestWord(d, 2), DigestWord(d, 3))
  }

  function Xor8(a: bv8, b: bv8): bv8 { a ^ b }

  /** Xor acts byte by byte: the xor of two words is the word of the
      xors of their bytes. */
  lemma XorBytes(a0: bv8, a1: bv8, a2: bv8, a3: bv8, b0: bv8, b1: bv8, b2: bv8, b3: bv8)
    ensures Xor32(Le32Of(a0, a1, a2, a3), Le32Of(b0, b1, b2, b3)) == Le32Of(Xor8(a0, b0), Xor8(a1, b1), Xor8(a2, b2), Xor8(a3, b3))
  {
  }

  /** Byte `k` of each of the four words, xored together. */
  function ByteXor(d: HashDigest, k: nat): bv8
    requires k < 4
  {
    Xor8(Xor8(Xor8(d[k], d[k + 4]), d[k + 8]), d[k + 12])
  }

  /** One step of the fold, xoring in word i, seen byte by byte. */
  lemma FoldWord(d: HashDigest, w: bv32, i: nat, b0: bv8, b1: bv8, b2: bv8, b3: bv8)
    requires i < 4 && w == Le32Of(b0, b1, b2, b3)
    ensures Xor32(w, DigestWord(d, i)) == Le32Of(Xor8(b0, d[4 * i]), Xor8(b1, d[4 * i + 1]), Xor8(b2, d[4 * i + 2]), Xor8(b3, d[4 * i + 3]))
  {
    XorBytes(b0, b1, b2, b3, d[4 * i], d[4 * i + 1], d[4 * i + 2], d[4 * i + 3]);
  }

  /** Byte k of the folded word is the xor of byte k of the four words:
      the bytes at k, k + 4, k + 8 and k + 12. */
  lemma DigestToU32Bytes(d: HashDigest)
    ensures DigestToU32(d) == Le32Of(ByteXor(d, 0), ByteXor(d, 1), ByteXor(d, 2), ByteXor(d, 3))
  {
    var w0 := DigestWord(d, 0);
    FoldWord(d, w0, 1, d[0], d[1], d[2], d[3]);
    var w1 := Xor32(w0, DigestWord(d, 1));
    FoldWord(d, w1, 2, Xor8(d[0], d[4]), Xor8(d[1], d[5]), Xor8(d[2], d[6]), Xor8(d[3], d[7]));
    var w2 := Xor32(w1, DigestWord(d, 2));
    FoldWord(d, w2, 3, Xor8(Xor8(d[0], d[4]), d[8]), Xor8(Xor8(d[1], d[5]), d[9]), Xor8(Xor8(d[2], d[6]), d[10]), Xor8(Xor8(d[3], d[7]), d[11]));
  }

  lemma Xor32Comm(a: bv32, b: bv32)
    ensures Xor32(a, b) == Xor32(b, a)
  {
  }

  lemma Xor32Assoc(a: bv32, b: bv32, c: bv32)
    ensures Xor32(Xor32(a, b), c) == Xor32(a, Xor32(b, c))
  {
  }

  /** The xor fold of four words, in the order the source applies it. */
  function XorFold(w0: bv32, w1: bv32, w2: bv32, w3: bv32): bv32
  {
    Xor32(Xor32(Xor32(w0, w1), w2), w3)
  }

  /** Neighbouring words may trade places in the fold. */
  lemma XorFoldSwap01(w0: bv32, w1: bv32, w2: bv32, w3: bv32)
    ensures XorFold(w0, w1, w2, w3) == XorFold(w1, w0, w2, w3)
  {
    Xor32Comm(w0, w1);
  }

  lemma XorFoldSwap12(w0: bv32, w1: bv32, w2: bv32, w3: bv32)
    ensures XorFold(w0, w1, w2, w3) == XorFold(w0, w2, w1, w3)
  {
    Xor32Assoc(w0, w1, w2);
    Xor32Assoc(w0, w2, w1);
    Xor32Comm(w1, w2);
  }

  lemma XorFoldSwap23(w0: bv32, w1: bv32, w2: bv32, w3: bv32)
    ensures XorFold(w0, w1, w2, w3) == XorFold(w0, w1, w3, w2)
  {
    Xor32Assoc(Xor32(w0, w1), w2, w3);
    Xor32Assoc(Xor32(w0, w1), w3, w2);
    Xor32Comm(w2, w3);
  }

  /** The exchanges of words further apart, each a chain of exchanges of
      neighbours. */
  lemma XorFoldSwap02(a: bv32, b: bv32, c: bv32, d: bv32)
    ensures XorFold(a, b, c, d) == XorFold(c, b, a, d)
  {
    XorFoldSwap01(a, b, c, d);
    XorFoldSwap12(b, a, c, d);
    XorFoldSwap01(b, c, a, d);
  }

  lemma XorFoldSwap13(a: bv32, b: bv32, c: bv32, d: bv32)
    ensures XorFold(a, b, c, d) == XorFold(a, d, c, b)
  {
    XorFoldSwap12(a, b, c, d);
    XorFoldSwap23(a, c, b, d);
    XorFoldSwap12(a, c, d, b);
  }

  lemma XorFoldSwap03(a: bv32, b: bv32, c: bv32, d: bv32)
    ensures XorFold(a, b, c, d) == XorFold(d, b, c, a)
  {
    XorFoldSwap02(a, b, c, d);
    XorFoldSwap23(c, b, a, d);
    XorFoldSwap02(c, b, d, a);
  }

  /** Any two of the four words may trade places in the fold. */
  lemma XorFoldSwap(w0: bv32, w1: bv32, w2: bv32, w3: bv32)
    ensures var f := XorFold(w0, w1, w2, w3);
      f == XorFold(w1, w0, w2, w3) && f == XorFold(w2, w1, w0, w3) &&
      f == XorFold(w3, w1, w2, w0) && f == XorFold(w0, w2, w1, w3) &&
      f == XorFold(w0, w3, w2, w1) && f == XorFold(w0, w1, w3, w2)
  {
    XorFoldSwap01(w0, w1, w2, w3);
    XorFoldSwap02(w0, w1, w2, w3);
    XorFoldSwap03(w0, w1, w2, w3);
    XorFoldSwap12(w0, w1, w2, w3);
    XorFoldSwap13(w0, w1, w2, w3);
    XorFoldSwap23(w0, w1, w2, w3);
  }

  /** The digest `b` whose words are those of `a` with words `i` and `j`
      exchanged gives the same digest_to_u32. */
  lemma DigestToU32Swap(a: HashDigest, b: HashDigest, i: nat, j: nat)
    requires i < 4 && j < 4
    requires forall k :: 0 <= k < 4 ==>
      DigestWord(b, k) == DigestWord(a, if k == i then j else if k == j then i else k)
    ensures DigestToU32(b) == DigestToU32(a)
  {
    assert DigestWord(b, 0) == DigestWord(a, if 0 == i then j else if 0 == j then i else 0);
    assert DigestWord(b, 1) == DigestWord(a, if 1 == i then j else if 1 == j then i else 1);
    assert DigestWord(b, 2) == DigestWord(a, if 2 == i then j else if 2 == j then i else 2);
    assert DigestWord(b, 3) == DigestWord(a, if 3 == i then j else if 3 == j then i else 3);
    XorFoldSwap(DigestWord(a, 0), DigestWord(a, 1), DigestWord(a, 2), DigestWord(a, 3));
  }

  /** The all-zero digest (what `hash` gives the empty input) folds to 0. */
  lemma DigestToU32Zero()
    ensures DigestToU32(Zeros(16)) == 0
  {
    var z: HashDigest := Zeros(16);
    assert DigestWord(z, 0) == 0 && DigestWord(z, 1) == 0 && DigestWord(z, 2) == 0 && DigestWord(z, 3) == 0;
  }

  // =====================================================================
  // Byte-wise comparison: CompareHashDigest (lines 17-26) and
  // digests_same (lines 28-36)

  /** digests_same: the bytes are compared in order and the first
      difference returns false; true exactly when the digests are
      equal. */
  method DigestsSame(lhs: HashDigest, rhs: HashDigest) returns (r: bool)
    ensures r <==> lhs == rhs
  {
    var i := 0;
    while i < 16
      invariant 0 <= i <= 16
      invariant forall k :: 0 <= k < i ==> lhs[k] == rhs[k]
    {
      if lhs[i] != rhs[i] {
        return false;
      }
      i := i + 1;
    }
    return true;
  }

  /** CompareHashDigest: the call operator of the comparator, whose body
      is the same byte loop as digests_same. */
  method CompareHashDigest(lhs: HashDigest, rhs: HashDigest) returns (r: bool)
    ensures r <==> lhs == rhs
  {
    r := DigestsSame(lhs, rhs);
  }

  // =====================================================================
  // digest_equal_to (lines 87-103): word-wise comparison

  /** digest_equal_to: the four words are compared in order and the first
      difference returns false; true exactly when the digests are
      equal, so the map's key equality is equality of digests. */
  method DigestEqualTo(a: HashDigest, b: HashDigest) returns (r: bool)
    ensures r <==> a == b
  {
    var i := 0;
    while i < 4
      invariant 0 <= i <= 4
      invariant SamePrefix(a, b, 4 * i)
    {
      Load32Injective(a, b, 4 * i);
      SamePrefixExtend(a, b, 4 * i, 4);
      if DigestWord(a, i) != DigestWord(b, i) {
        return false;
      }
      i := i + 1;
    }
    assert a[.. 16] == a && b[.. 16] == b;
    return true;
  }

  // =====================================================================
  // digest_hash (lines 60-85)

  /** The hash of a digest is its first word: the word whose bytes, least
      significant first, are the first four bytes of the digest. */
  function DigestHash(d: HashDigest): (r: bv32)
    ensures Bytes32(r) == d[.. 4]
  {
    Load32Le(d, 0);
    Le32Bytes(d[.. 4]);
    DigestWord(d, 0)
  }

  /** The seeded form ignores its seed: it too is the first word. */
  function DigestHashSeeded(d: HashDigest, seed: bv32): (r: bv32)
    ensures Bytes32(r) == d[.. 4]
  {
    Load32Le(d, 0);
    Le32Bytes(d[.. 4]);
    DigestWord(d, 0)
  }

  /** Two digests hash alike exactly when their first four bytes agree, so
      the hash is consistent with digest_equal_to: equal digests share a
      bucket. */
  lemma DigestHashFirstBytes(a: HashDigest, b: HashDigest)
    ensures DigestHash(a) == DigestHash(b) <==> a[.. 4] == b[.. 4]
  {
    Load32Injective(a, b, 0);
  }

  /** Every seed gives the unseeded hash. */
  lemma DigestHashSeedIgnored(d: HashDigest, seed: bv32, other: bv32)
    ensures DigestHashSeeded(d, seed) == DigestHash(d)
    ensures DigestHashSeeded(d, seed) == DigestHashSeeded(d, other)
  {
  }

  // =====================================================================
  // NodeID (lines 38-58)

  /** The node and tree indices a digest maps to. */
  datatype NodeID = NodeID(node: bv32, tree: bv32)

  /** The default constructor (lines 43-46): both indices are UINT_MAX,
      the value no real index exceeds. */
  function DefaultNodeID(): (id: NodeID)
    ensures forall other: NodeID :: other.node <= id.node && other.tree <= id.tree
  {
    NodeID(0xFFFF_FFFF, 0xFFFF_FFFF)
  }

  /** operator== (lines 55-57): written as the negation of "some field
      differs"; it is equality of the two ids. */
  function NodeIDEquals(id: NodeID, other: NodeID): (r: bool)
    ensures r <==> id == other
  {
    !(other.node != id.node || other.tree != id.tree)
  }
}
