/**
  MurmurHash3_x64_128 and MurmurHash3_x64_64 (include/kokkos_murmur3.hpp
  lines 213-373), the variants that work on 64-bit words, and `hash`
  (lines 431-437), which digests a buffer with MurmurHash3_x64_128 and
  seed 0.

  The two routines share their body, tail and finalisation; they differ
  only in what they store: x64_128 writes both words of the result,
  x64_64 the first word only.
*/
module Murmur3X64 {
  import opened LittleEndian
  import opened Murmur3

  // =====================================================================
  // Round steps (lines 234-240 and 315-321)

  /** Line 234: the first block word is multiplied by c1, rotated left by
      31, truncated to its low 32 bits by `rotl64`, widened back to 64 bits
      and multiplied by c2. */
  function X64MixK1(k: bv64): bv64
  {
    (Rotl64(k * 0x87c3_7b91_1142_53d5, 31) as bv64) * 0x4cf5_ad43_2745_937f
  }

  /** Line 238: the second block word, multiplied by c2, rotated by 33
      (truncated the same way) and multiplied by c1. */
  function X64MixK2(k: bv64): bv64
  {
    (Rotl64(k * 0x4cf5_ad43_2745_937f, 33) as bv64) * 0x87c3_7b91_1142_53d5
  }

  /** Line 236: h1 is rotated by 27 (truncated), h2 is added, and the sum
      is multiplied by 5 and offset by 0x52dce729. */
  function X64StepH1(h: bv64, g: bv64): bv64
  {
    ((Rotl64(h, 27) as bv64) + g) * 5 + 0x52dc_e729
  }

  /** Line 240: h2 is rotated by 31 (truncated), the new h1 is added, and
      the sum is multiplied by 5 and offset by 0x38495ab5. */
  function X64StepH2(h: bv64, g: bv64): bv64
  {
    ((Rotl64(h, 31) as bv64) + g) * 5 + 0x3849_5ab5
  }

  // =====================================================================
  // Body (lines 227-241)

  /** Word `j` of the sixteen-byte block `i`, the 64-bit block 2i + j of
      the input (lines 231-232). */
  function X64Block(p: seq<bv8>, i: nat, j: nat): bv64
    requires j < 2 && 16 * i + 16 <= |p|
  {
    GetBlock64(p, 2 * i + j)
  }

  /** The two accumulators after the first `n` blocks.  Within a round h1
      takes in the h2 of the previous round and h2 the h1 of the same
      round. */
  function X64H1(p: seq<bv8>, seed: bv32, n: nat): bv64
    requires 16 * n <= |p|
    decreases n, 0
  {
    if n == 0 then seed as bv64
    else X64StepH1(Xor64(X64H1(p, seed, n - 1), X64MixK1(X64Block(p, n - 1, 0))), X64H2(p, seed, n - 1))
  }

  function X64H2(p: seq<bv8>, seed: bv32, n: nat): bv64
    requires 16 * n <= |p|
    decreases n, 1
  {
    if n == 0 then seed as bv64
    else X64StepH2(Xor64(X64H2(p, seed, n - 1), X64MixK2(X64Block(p, n - 1, 1))), X64H1(p, seed, n))
  }

  lemma X64BodyStep(p: seq<bv8>, seed: bv32, n: nat)
    requires 0 < n && 16 * n <= |p|
    ensures X64H1(p, seed, n) == X64StepH1(Xor64(X64H1(p, seed, n - 1), X64MixK1(X64Block(p, n - 1, 0))), X64H2(p, seed, n - 1))
    ensures X64H2(p, seed, n) == X64StepH2(Xor64(X64H2(p, seed, n - 1), X64MixK2(X64Block(p, n - 1, 1))), X64H1(p, seed, n))
  {
  }

  /** Lines 229-241: the block loop, one round per sixteen bytes. */
  method X64Body(data: seq<bv8>, seed: bv32) returns (h1: bv64, h2: bv64)
    ensures h1 == X64H1(data, seed, |data| / 16) && h2 == X64H2(data, seed, |data| / 16)
  {
    var nblocks := |data| / 16;
    h1, h2 := seed as bv64, seed as bv64;
    var i := 0;
    while i < nblocks
      invariant 0 <= i <= nblocks
      invariant h1 == X64H1(data, seed, i) && h2 == X64H2(data, seed, i)
    {
      X64BodyStep(data, seed, i + 1);
      var k1 := X64Block(data, i, 0);
      var k2 := X64Block(data, i, 1);

      k1 := X64MixK1(k1); h1 := Xor64(h1, k1);
      h1 := X64StepH1(h1, h2);
      k2 := X64MixK2(k2); h2 := Xor64(h2, k2);
      h2 := X64StepH2(h2, h1);
      i := i + 1;
    }
  }

  /** A block depends on its own sixteen bytes only, and on all of them:
      two buffers give the same two words for block `i` exactly when their
      bytes of block `i` agree, whatever the other bytes are. */
  lemma X64BlockLocal(a: seq<bv8>, b: seq<bv8>, i: nat)
    requires 16 * i + 16 <= |a| && 16 * i + 16 <= |b|
    ensures X64Block(a, i, 0) == X64Block(b, i, 0) && X64Block(a, i, 1) == X64Block(b, i, 1)
        <==> a[16 * i .. 16 * i + 16] == b[16 * i .. 16 * i + 16]
  {
    var lo := 16 * i;
    Load64Injective(a, b, lo);
    Load64Injective(a, b, lo + 8);
    SliceSplit(a, b, lo, lo + 8, lo + 16);
  }

  /** The accumulators depend on the block words only ... */
  lemma {:induction false} X64BodySameBlocks(a: seq<bv8>, b: seq<bv8>, seed: bv32, n: nat)
    requires 16 * n <= |a| && 16 * n <= |b|
    requires forall i :: 0 <= i < n ==> X64Block(a, i, 0) == X64Block(b, i, 0) && X64Block(a, i, 1) == X64Block(b, i, 1)
    ensures X64H1(a, seed, n) == X64H1(b, seed, n) && X64H2(a, seed, n) == X64H2(b, seed, n)
  {
    if n > 0 {
      X64BodySameBlocks(a, b, seed, n - 1);
      X64BodyStep(a, seed, n);
      X64BodyStep(b, seed, n);
    }
  }

  /** ... so the body reads its input as a stream: the accumulators after
      `n` blocks depend on the first 16n bytes only. */
  lemma X64BodyPrefix(a: seq<bv8>, b: seq<bv8>, seed: bv32, n: nat)
    requires 16 * n <= |a| && 16 * n <= |b|
    requires a[.. 16 * n] == b[.. 16 * n]
    ensures X64H1(a, seed, n) == X64H1(b, seed, n) && X64H2(a, seed, n) == X64H2(b, seed, n)
  {
    forall i | 0 <= i < n
      ensures X64Block(a, i, 0) == X64Block(b, i, 0) && X64Block(a, i, 1) == X64Block(b, i, 1)
    {
      assert a[16 * i .. 16 * i + 16] == a[.. 16 * n][16 * i .. 16 * i + 16];
      assert b[16 * i .. 16 * i + 16] == b[.. 16 * n][16 * i .. 16 * i + 16];
      X64BlockLocal(a, b, i);
    }
    X64BodySameBlocks(a, b, seed, n);
  }

  // =====================================================================
  // Tail (lines 246-271).  The bytes left after the last block form two
  // lanes of eight bytes, assembled least significant first by the
  // fall-through switch; a lane that holds no byte is never mixed in.

  /** Lane `lane` of the tail: bytes 8*lane .. 8*lane+7 read as a
      little-endian word, byte 8*lane+b going to bits 8b .. 8b+7. */
  function TailWord64(p: seq<bv8>, tail: nat, rem: nat, lane: nat): bv64
    requires tail + rem <= |p|
  {
    var j := 8 * lane;
    Le64Of(TailByte(p, tail, rem, j), TailByte(p, tail, rem, j + 1), TailByte(p, tail, rem, j + 2), TailByte(p, tail, rem, j + 3),
           TailByte(p, tail, rem, j + 4), TailByte(p, tail, rem, j + 5), TailByte(p, tail, rem, j + 6), TailByte(p, tail, rem, j + 7))
  }

  /** A lane that holds at least one byte is the little-endian load of its
      bytes padded with zero bytes to a full word. */
  lemma TailWord64Padded(p: seq<bv8>, tail: nat, rem: nat, lane: nat)
    requires tail + rem <= |p| && 8 * lane < rem
    ensures var m := if rem - 8 * lane < 8 then rem - 8 * lane else 8;
      TailWord64(p, tail, rem, lane) == Le64(PadTo(p[tail + 8 * lane .. tail + 8 * lane + m], 8))
  {
    var m := if rem - 8 * lane < 8 then rem - 8 * lane else 8;
    var q := PadTo(p[tail + 8 * lane .. tail + 8 * lane + m], 8);
    var j := 8 * lane;
    assert TailByte(p, tail, rem, j) == q[0] && TailByte(p, tail, rem, j + 1) == q[1];
    assert TailByte(p, tail, rem, j + 2) == q[2] && TailByte(p, tail, rem, j + 3) == q[3];
    assert TailByte(p, tail, rem, j + 4) == q[4] && TailByte(p, tail, rem, j + 5) == q[5];
    assert TailByte(p, tail, rem, j + 6) == q[6] && TailByte(p, tail, rem, j + 7) == q[7];
  }

  /** The bytes of one lane, gathered by the cases of the switch that cover
      it, from its highest byte down: case 8*lane+b+1 adds byte 8*lane+b. */
  method TailLane64(data: seq<bv8>, tail: nat, rem: nat, lane: nat) returns (k: bv64)
    requires tail + rem <= |data|
    ensures k == TailWord64(data, tail, rem, lane)
  {
    var j := 8 * lane;
    k := 0;
    if rem >= j + 8 { k := k ^ ((data[tail + j + 7] as bv64) << 56); }
    if rem >= j + 7 { k := k ^ ((data[tail + j + 6] as bv64) << 48); }
    if rem >= j + 6 { k := k ^ ((data[tail + j + 5] as bv64) << 40); }
    if rem >= j + 5 { k := k ^ ((data[tail + j + 4] as bv64) << 32); }
    if rem >= j + 4 { k := k ^ ((data[tail + j + 3] as bv64) << 24); }
    if rem >= j + 3 { k := k ^ ((data[tail + j + 2] as bv64) << 16); }
    if rem >= j + 2 { k := k ^ ((data[tail + j + 1] as bv64) << 8); }
    if rem >= j + 1 { k := k ^ (data[tail + j] as bv64); }
  }

  /** Lines 260 and 270: each lane that holds a byte is mixed into
      its own accumulator. */
  function X64Tail1(h: bv64, p: seq<bv8>, tail: nat, rem: nat): bv64
    requires tail + rem <= |p|
  {
    if 0 < rem then Xor64(h, X64MixK1(TailWord64(p, tail, rem, 0))) else h
  }

  function X64Tail2(h: bv64, p: seq<bv8>, tail: nat, rem: nat): bv64
    requires tail + rem <= |p|
  {
    if 8 < rem then Xor64(h, X64MixK2(TailWord64(p, tail, rem, 1))) else h
  }

  /** Lines 251-271: the switch on `len & 15`; lane 1 (bytes 8-14) is
      finished and mixed in at case 9, lane 0 (bytes 0-7) at case 1. */
  method X64TailSwitch(data: seq<bv8>, tail: nat, rem: nat, g1: bv64, g2: bv64) returns (h1: bv64, h2: bv64)
    requires rem < 16 && tail + rem <= |data|
    ensures h1 == X64Tail1(g1, data, tail, rem) && h2 == X64Tail2(g2, data, tail, rem)
  {
    h1, h2 := g1, g2;
    var k2 := TailLane64(data, tail, rem, 1);
    if rem >= 9 { k2 := X64MixK2(k2); h2 := Xor64(h2, k2); }
    var k1 := TailLane64(data, tail, rem, 0);
    if rem >= 1 { k1 := X64MixK1(k1); h1 := Xor64(h1, k1); }
  }

  /** The accumulators after the body and the tail (lines 216-271). */
  function X64Mixed1(data: seq<bv8>, seed: bv32): bv64
  {
    var n := |data| / 16;
    X64Tail1(X64H1(data, seed, n), data, 16 * n, |data| % 16)
  }

  function X64Mixed2(data: seq<bv8>, seed: bv32): bv64
  {
    var n := |data| / 16;
    X64Tail2(X64H2(data, seed, n), data, 16 * n, |data| % 16)
  }

  /** Lines 216-271, the part MurmurHash3_x64_128 and MurmurHash3_x64_64
      share before the finalisation. */
  method X64Accumulate(data: seq<bv8>, seed: bv32) returns (h1: bv64, h2: bv64)
    ensures h1 == X64Mixed1(data, seed) && h2 == X64Mixed2(data, seed)
  {
    h1, h2 := X64Body(data, seed);
    var tail := 16 * (|data| / 16);
    h1, h2 := X64TailSwitch(data, tail, |data| % 16, h1, h2);
  }

  // =====================================================================
  // Finalisation (lines 277-289)

  /** The `uint64_t` length, as it is xored into both accumulators. */
  function LenWord64(len: nat): bv64
    requires len < U64
  {
    len as bv64
  }

  /** Lines 277-280: the length is xored into both accumulators, then h2
      is added to h1 and the new h1 to h2. */
  function X64Spread1(h1: bv64, h2: bv64, lw: bv64): bv64
  {
    Add64(Xor64(h1, lw), Xor64(h2, lw))
  }

  function X64Spread2(h2: bv64, s1: bv64, lw: bv64): bv64
  {
    Add64(Xor64(h2, lw), s1)
  }

  /** Lines 282-286: fmix64 of both, then the same additions again. */
  function X64Mix1(s1: bv64, s2: bv64): bv64
  {
    Add64(FMix64(s1), FMix64(s2))
  }

  function X64Mix2(s2: bv64, o1: bv64): bv64
  {
    Add64(FMix64(s2), o1)
  }

  /** Two words stored one after the other, as the digest is written. */
  function Words64(w1: bv64, w2: bv64): (d: seq<bv8>)
    ensures |d| == 16
  {
    Bytes64(w1) + Bytes64(w2)
  }

  /** Each word can be read back from the digest at its offset ... */
  lemma Words64Load(w1: bv64, w2: bv64)
    ensures Words64(w1, w2)[.. 8] == Bytes64(w1)
    ensures Load64(Words64(w1, w2), 0) == w1 && Load64(Words64(w1, w2), 8) == w2
  {
    var d := Words64(w1, w2);
    assert d[.. 8] == Bytes64(w1);
    assert d[8 .. 16] == Bytes64(w2);
    Load64Le(d, 0);
    Load64Le(d, 8);
  }

  /** ... so two digests are equal exactly when their words are. */
  lemma Words64Injective(a1: bv64, a2: bv64, b1: bv64, b2: bv64)
    ensures Words64(a1, a2) == Words64(b1, b2) <==> a1 == b1 && a2 == b2
  {
    Words64Load(a1, a2);
    Words64Load(b1, b2);
  }

  /** Lines 277-289: the 16-byte digest of MurmurHash3_x64_128. */
  function X64_128Final(h1: bv64, h2: bv64, lw: bv64): (d: seq<bv8>)
    ensures |d| == 16
  {
    var s1 := X64Spread1(h1, h2, lw);
    var s2 := X64Spread2(h2, s1, lw);
    var o1 := X64Mix1(s1, s2);
    Words64(o1, X64Mix2(s2, o1))
  }

  /** Lines 358-369: the 8-byte digest of MurmurHash3_x64_64, the first
      word only. */
  function X64_64Final(h1: bv64, h2: bv64, lw: bv64): (d: seq<bv8>)
    ensures |d| == 8
  {
    var s1 := X64Spread1(h1, h2, lw);
    var s2 := X64Spread2(h2, s1, lw);
    Bytes64(X64Mix1(s1, s2))
  }

  /** MurmurHash3_x64_128 of `data` with `seed`. */
  function X64_128(data: seq<bv8>, seed: bv32): (d: seq<bv8>)
    requires |data| < U64
    ensures |d| == 16
  {
    X64_128Final(X64Mixed1(data, seed), X64Mixed2(data, seed), LenWord64(|data|))
  }

  /** MurmurHash3_x64_64 of `data` with `seed`. */
  function X64_64(data: seq<bv8>, seed: bv32): (d: seq<bv8>)
    requires |data| < U64
    ensures |d| == 8
  {
    X64_64Final(X64Mixed1(data, seed), X64Mixed2(data, seed), LenWord64(|data|))
  }

  /** Lines 277-286: the finalisation, giving both words of the digest. */
  method X64Finalize(g1: bv64, g2: bv64, lw: bv64) returns (h1: bv64, h2: bv64)
    ensures Words64(h1, h2) == X64_128Final(g1, g2, lw)
  {
    h1 := Xor64(g1, lw); h2 := Xor64(g2, lw);
    h1 := Add64(h1, h2);
    h2 := Add64(h2, h1);
    assert h1 == X64Spread1(g1, g2, lw) && h2 == X64Spread2(g2, h1, lw);

    h1 := FMix64(h1);
    h2 := FMix64(h2);

    h1 := Add64(h1, h2);
    h2 := Add64(h2, h1);
  }

  /** MurmurHash3_x64_128 (lines 213-292): writes the digest into the first 16 bytes of
      `out` and leaves the rest of it alone. */
  method MurmurHash3X64_128(data: seq<bv8>, seed: bv32, out: array<bv8>)
    requires |data| < U64 && 16 <= out.Length
    modifies out
    ensures out[.. 16] == X64_128(data, seed)
    ensures out[16 ..] == old(out[16 ..])
  {
    var h1, h2 := X64Accumulate(data, seed);
    h1, h2 := X64Finalize(h1, h2, LenWord64(|data|));
    assert Words64(h1, h2) == X64_128(data, seed);

    StoreWords64(out, h1, h2);
  }

  /** Lines 288-289: the two result words stored, least significant byte
      first, at offsets 0 and 8 of `out`. */
  method StoreWords64(out: array<bv8>, w1: bv64, w2: bv64)
    requires 16 <= out.Length
    modifies out
    ensures out[.. 16] == Words64(w1, w2)
    ensures out[16 ..] == old(out[16 ..])
  {
    ghost var d := Words64(w1, w2);
    Store64(out, 0, w1);
    assert forall k :: 0 <= k < 8 ==> out[k] == d[k];
    Store64(out, 8, w2);
    assert out[.. 16] == d;
  }

  /** MurmurHash3_x64_64 (lines 294-373): the same computation, but only the first word is
      stored (line 369); the second store is commented out in the source,
      so bytes 8 onwards of `out` keep their old values. */
  method MurmurHash3X64_64(data: seq<bv8>, seed: bv32, out: array<bv8>)
    requires |data| < U64 && 8 <= out.Length
    modifies out
    ensures out[.. 8] == X64_64(data, seed)
    ensures out[8 ..] == old(out[8 ..])
  {
    var h1, h2 := X64Accumulate(data, seed);
    h1, h2 := X64Finalize(h1, h2, LenWord64(|data|));
    Words64Load(h1, h2);
    X64_64Final128(X64Mixed1(data, seed), X64Mixed2(data, seed), LenWord64(|data|));
    assert Bytes64(h1) == X64_64(data, seed);

    StoreWord64(out, h1);
  }

  /** Line 369: the first result word stored at offset 0, the only store
      of x64_64. */
  method StoreWord64(out: array<bv8>, w: bv64)
    requires 8 <= out.Length
    modifies out
    ensures out[.. 8] == Bytes64(w)
    ensures out[8 ..] == old(out[8 ..])
  {
    Store64(out, 0, w);
    assert out[.. 8] == Bytes64(w);
  }

  /** hash (lines 431-437): the digest of a buffer is its
      MurmurHash3_x64_128 with seed 0, written to the first 16 bytes of
      `digest`. */
  method Hash(data: seq<bv8>, digest: array<bv8>)
    requires |data| < U64 && 16 <= digest.Length
    modifies digest
    ensures digest[.. 16] == X64_128(data, 0)
    ensures digest[16 ..] == old(digest[16 ..])
  {
    MurmurHash3X64_128(data, 0, digest);
  }

  // =====================================================================
  // Properties

  /** The 64-bit digest is the first half of the 128-bit one. */
  lemma X64_64Final128(h1: bv64, h2: bv64, lw: bv64)
    ensures X64_64Final(h1, h2, lw) == X64_128Final(h1, h2, lw)[.. 8]
  {
    var s1 := X64Spread1(h1, h2, lw);
    var s2 := X64Spread2(h2, s1, lw);
    var o1 := X64Mix1(s1, s2);
    Words64Load(o1, X64Mix2(s2, o1));
  }

  lemma X64_64IsPrefix(data: seq<bv8>, seed: bv32)
    requires |data| < U64
    ensures X64_64(data, seed) == X64_128(data, seed)[.. 8]
  {
    X64_64Final128(X64Mixed1(data, seed), X64Mixed2(data, seed), LenWord64(|data|));
  }

  /** The finalisation loses nothing: for inputs of one length, two
      128-bit digests are equal exactly when the accumulators before it
      were.  Each stage is undone in turn: the words are read back from
      the bytes, the additions cancel, fmix64 is a bijection and xoring in the
      length cancels. */
  lemma X64_128FinalInjective(h1: bv64, h2: bv64, g1: bv64, g2: bv64, lw: bv64)
    ensures X64_128Final(h1, h2, lw) == X64_128Final(g1, g2, lw) <==> h1 == g1 && h2 == g2
  {
    if X64_128Final(h1, h2, lw) == X64_128Final(g1, g2, lw) {
      var s1 := X64Spread1(h1, h2, lw);
      var s2 := X64Spread2(h2, s1, lw);
      var o1 := X64Mix1(s1, s2);
      var t1 := X64Spread1(g1, g2, lw);
      var t2 := X64Spread2(g2, t1, lw);
      var p1 := X64Mix1(t1, t2);
      Words64Injective(o1, X64Mix2(s2, o1), p1, X64Mix2(t2, p1));
      Add64Cancel(FMix64(s2), FMix64(t2), o1);
      FMix64Injective(s2, t2);
      Add64Cancel(FMix64(s1), FMix64(t1), FMix64(s2));
      FMix64Injective(s1, t1);
      Add64Cancel(Xor64(h2, lw), Xor64(g2, lw), s1);
      Xor64Cancel(h2, g2, lw);
      Add64Cancel(Xor64(h1, lw), Xor64(g1, lw), Xor64(h2, lw));
      Xor64Cancel(h1, g1, lw);
    }
  }

  /** The empty input hashes, with seed 0, to sixteen zero bytes, so
      `hash` of an empty buffer is the all-zero digest. */
  lemma X64_128EmptyZero()
    ensures X64_128([], 0) == Zeros(16)
    ensures X64_64([], 0) == Zeros(8)
  {
    assert FMix64(0) == 0;
    assert Bytes64(0) == Zeros(8);
  }
}
