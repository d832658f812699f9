/**
  Byte layout of machine words.

  The hashing code reads and writes multi-byte integers by casting byte
  buffers to `uint16_t*`, `uint32_t*` and `uint64_t*` (and through a union in
  `bitwise_equal`).  The model assumes, once and for all, the little-endian
  host the code is built for: a word is stored least significant byte first.
  `LeN` decodes N/8 bytes into a word, `BytesN` encodes a word into N/8
  bytes, and the lemmas below show that the two are inverse, so that a
  word load compares, hashes and stores exactly the bytes it covers.
*/
module LittleEndian {

  /** `n` zero bytes. */
  function Zeros(n: nat): (z: seq<bv8>)
    ensures |z| == n && forall j :: 0 <= j < n ==> z[j] == 0
  {
    seq(n, _ => 0)
  }

  /** `b` followed by zero bytes up to length `n`: how a partial tail block
      is seen once it is assembled into a word. */
  function PadTo(b: seq<bv8>, n: nat): (p: seq<bv8>)
    requires |b| <= n
    ensures |p| == n
    ensures forall j :: 0 <= j < n ==> p[j] == if j < |b| then b[j] else 0
  {
    b + Zeros(n - |b|)
  }

  // ---------------------------------------------------------------------
  // Decoding: byte k lands at bit 8k.

  function Le16(b: seq<bv8>): bv16
    requires |b| == 2
  {
    (b[0] as bv16) | ((b[1] as bv16) << 8)
  }

  function Le32(b: seq<bv8>): bv32
    requires |b| == 4
  {
    Le32Of(b[0], b[1], b[2], b[3])
  }

  /** The word whose bytes, least significant first, are `b0` .. `b3`. */
  function Le32Of(b0: bv8, b1: bv8, b2: bv8, b3: bv8): bv32
  {
    (b0 as bv32) | ((b1 as bv32) << 8) | ((b2 as bv32) << 16) | ((b3 as bv32) << 24)
  }

  /** The shifted bytes do not overlap, so or-ing them is adding them. */
  lemma Le32OfSum(b0: bv8, b1: bv8, b2: bv8, b3: bv8)
    ensures Le32Of(b0, b1, b2, b3) == (b0 as bv32) + 0x100 * (b1 as bv32) + 0x1_0000 * (b2 as bv32) + 0x100_0000 * (b3 as bv32)
  {
  }

  function Le64(b: seq<bv8>): bv64
    requires |b| == 8
  {
    Le64Of(b[0], b[1], b[2], b[3], b[4], b[5], b[6], b[7])
  }

  /** The word whose bytes, least significant first, are `b0` .. `b7`. */
  function Le64Of(b0: bv8, b1: bv8, b2: bv8, b3: bv8, b4: bv8, b5: bv8, b6: bv8, b7: bv8): bv64
  {
    (b0 as bv64) | ((b1 as bv64) << 8) | ((b2 as bv64) << 16) | ((b3 as bv64) << 24) |
    ((b4 as bv64) << 32) | ((b5 as bv64) << 40) | ((b6 as bv64) << 48) | ((b7 as bv64) << 56)
  }

  // ---------------------------------------------------------------------
  // Loads at a byte offset, as a cast pointer dereference performs them.
  // They index the buffer directly; the lemmas after them show that each is
  // the decoding of the bytes it covers.

  function Load16(p: seq<bv8>, off: nat): bv16
    requires off + 2 <= |p|
  {
    (p[off] as bv16) | ((p[off + 1] as bv16) << 8)
  }

  function Load32(p: seq<bv8>, off: nat): bv32
    requires off + 4 <= |p|
  {
    Le32Of(p[off], p[off + 1], p[off + 2], p[off + 3])
  }

  function Load64(p: seq<bv8>, off: nat): bv64
    requires off + 8 <= |p|
  {
    Le64Of(p[off], p[off + 1], p[off + 2], p[off + 3], p[off + 4], p[off + 5], p[off + 6], p[off + 7])
  }

  lemma Load16Le(p: seq<bv8>, off: nat)
    requires off + 2 <= |p|
    ensures Load16(p, off) == Le16(p[off .. off + 2])
  {
  }

  lemma Load32Le(p: seq<bv8>, off: nat)
    requires off + 4 <= |p|
    ensures Load32(p, off) == Le32(p[off .. off + 4])
  {
  }

  lemma Load64Le(p: seq<bv8>, off: nat)
    requires off + 8 <= |p|
    ensures Load64(p, off) == Le64(p[off .. off + 8])
  {
  }

  // ---------------------------------------------------------------------
  // Encoding: byte k of the result is bits 8k .. 8k+7 of the word.

  function Bytes16(w: bv16): (b: seq<bv8>)
    ensures |b| == 2 && Le16(b) == w
  {
    [(w & 0xFF) as bv8, (w >> 8) as bv8]
  }

  function Bytes32(w: bv32): (b: seq<bv8>)
    ensures |b| == 4 && Le32(b) == w
  {
    [(w & 0xFF) as bv8, ((w >> 8) & 0xFF) as bv8, ((w >> 16) & 0xFF) as bv8, (w >> 24) as bv8]
  }

  function Bytes64(w: bv64): (b: seq<bv8>)
    ensures |b| == 8 && Le64(b) == w
  {
    [(w & 0xFF) as bv8, ((w >> 8) & 0xFF) as bv8, ((w >> 16) & 0xFF) as bv8,
     ((w >> 24) & 0xFF) as bv8, ((w >> 32) & 0xFF) as bv8, ((w >> 40) & 0xFF) as bv8,
     ((w >> 48) & 0xFF) as bv8, (w >> 56) as bv8]
  }

  // ---------------------------------------------------------------------
  // Decoding then encoding gives the bytes back, so a word load loses
  // nothing: two byte strings are equal exactly when their words are.

  lemma Le16Bytes(b: seq<bv8>)
    requires |b| == 2
    ensures Bytes16(Le16(b)) == b
  {
  }

  lemma Le32Bytes(b: seq<bv8>)
    requires |b| == 4
    ensures Bytes32(Le32(b)) == b
  {
  }

  lemma Le64Bytes(b: seq<bv8>)
    requires |b| == 8
    ensures Bytes64(Le64(b)) == b
  {
  }

  lemma Le16Injective(a: seq<bv8>, b: seq<bv8>)
    requires |a| == 2 && |b| == 2
    ensures Le16(a) == Le16(b) <==> a == b
  {
    Le16Bytes(a);
    Le16Bytes(b);
  }

  lemma Le32Injective(a: seq<bv8>, b: seq<bv8>)
    requires |a| == 4 && |b| == 4
    ensures Le32(a) == Le32(b) <==> a == b
  {
    Le32Bytes(a);
    Le32Bytes(b);
  }

  lemma Le64Injective(a: seq<bv8>, b: seq<bv8>)
    requires |a| == 8 && |b| == 8
    ensures Le64(a) == Le64(b) <==> a == b
  {
    Le64Bytes(a);
    Le64Bytes(b);
  }

  /** Two loads agree exactly when the bytes under them agree. */
  lemma Load16Injective(a: seq<bv8>, b: seq<bv8>, off: nat)
    requires off + 2 <= |a| && off + 2 <= |b|
    ensures Load16(a, off) == Load16(b, off) <==> a[off .. off + 2] == b[off .. off + 2]
  {
    Load16Le(a, off);
    Load16Le(b, off);
    Le16Injective(a[off .. off + 2], b[off .. off + 2]);
  }

  lemma Load32Injective(a: seq<bv8>, b: seq<bv8>, off: nat)
    requires off + 4 <= |a| && off + 4 <= |b|
    ensures Load32(a, off) == Load32(b, off) <==> a[off .. off + 4] == b[off .. off + 4]
  {
    Load32Le(a, off);
    Load32Le(b, off);
    Le32Injective(a[off .. off + 4], b[off .. off + 4]);
  }

  lemma Load64Injective(a: seq<bv8>, b: seq<bv8>, off: nat)
    requires off + 8 <= |a| && off + 8 <= |b|
    ensures Load64(a, off) == Load64(b, off) <==> a[off .. off + 8] == b[off .. off + 8]
  {
    Load64Le(a, off);
    Load64Le(b, off);
    Le64Injective(a[off .. off + 8], b[off .. off + 8]);
  }

  // ---------------------------------------------------------------------
  // Comparing byte strings a stretch at a time.

  /** The bytes of `a` and `b` agree below `m`. */
  predicate SamePrefix(a: seq<bv8>, b: seq<bv8>, m: nat)
    requires m <= |a| && m <= |b|
  {
    a[.. m] == b[.. m]
  }

  /** The prefix below `m + w` agrees exactly when the prefix below `m`
      and the `w` bytes from `m` on do. */
  lemma SamePrefixExtend(a: seq<bv8>, b: seq<bv8>, m: nat, w: nat)
    requires m + w <= |a| && m + w <= |b|
    ensures SamePrefix(a, b, m + w) <==> SamePrefix(a, b, m) && a[m .. m + w] == b[m .. m + w]
  {
    assert a[.. m + w] == a[.. m] + a[m .. m + w];
    assert b[.. m + w] == b[.. m] + b[m .. m + w];
    if SamePrefix(a, b, m + w) {
      assert a[.. m] == a[.. m + w][.. m] && b[.. m] == b[.. m + w][.. m];
      assert a[m .. m + w] == a[.. m + w][m ..] && b[m .. m + w] == b[.. m + w][m ..];
    }
  }

  /** Two slices `lo .. hi` agree exactly when their parts on either side
      of `m` do. */
  lemma SliceSplit(a: seq<bv8>, b: seq<bv8>, lo: nat, m: nat, hi: nat)
    requires lo <= m <= hi && hi <= |a| && hi <= |b|
    ensures a[lo .. hi] == b[lo .. hi] <==> a[lo .. m] == b[lo .. m] && a[m .. hi] == b[m .. hi]
  {
    assert a[lo .. hi] == a[lo .. m] + a[m .. hi];
    assert b[lo .. hi] == b[lo .. m] + b[m .. hi];
    if a[lo .. hi] == b[lo .. hi] {
      assert a[lo .. m] == a[lo .. hi][.. m - lo] && b[lo .. m] == b[lo .. hi][.. m - lo];
      assert a[m .. hi] == a[lo .. hi][m - lo ..] && b[m .. hi] == b[lo .. hi][m - lo ..];
    }
  }

  // ---------------------------------------------------------------------
  // Stores of a word through a cast pointer into a byte buffer: the bytes
  // of the word, least significant first, and nothing else changes.

  method Store32(out: array<bv8>, off: nat, w: bv32)
    requires off + 4 <= out.Length
    modifies out
    ensures forall k :: 0 <= k < 4 ==> out[off + k] == Bytes32(w)[k]
    ensures forall k :: 0 <= k < out.Length && !(off <= k < off + 4) ==> out[k] == old(out[k])
  {
    var b := Bytes32(w);
    var j := 0;
    while j < 4
      invariant 0 <= j <= 4
      invariant forall k :: 0 <= k < j ==> out[off + k] == b[k]
      invariant forall k :: 0 <= k < out.Length && !(off <= k < off + j) ==> out[k] == old(out[k])
    {
      out[off + j] := b[j];
      j := j + 1;
    }
  }

  method Store64(out: array<bv8>, off: nat, w: bv64)
    requires off + 8 <= out.Length
    modifies out
    ensures forall k :: 0 <= k < 8 ==> out[off + k] == Bytes64(w)[k]
    ensures forall k :: 0 <= k < out.Length && !(off <= k < off + 8) ==> out[k] == old(out[k])
  {
    var b := Bytes64(w);
    var j := 0;
    while j < 8
      invariant 0 <= j <= 8
      invariant forall k :: 0 <= k < j ==> out[off + k] == b[k]
      invariant forall k :: 0 <= k < out.Length && !(off <= k < off + j) ==> out[k] == old(out[k])
    {
      out[off + j] := b[j];
      j := j + 1;
    }
  }
}
