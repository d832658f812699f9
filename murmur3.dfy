/**
  The primitives MurmurHash3 is built from: the block reads `getblock32`
  and `getblock64`, the rotations `rotl32` and `rotl64`, and the
  finalisation mixes `fmix32` and `fmix64`, together with the facts about
  them that the hash routines rely on.

  Words are `bv32`/`bv64`, so `uint32_t`/`uint64_t` wrap-around is the
  bit-vector arithmetic itself.  The round steps, the mixing of one block
  word and the update of one accumulator, are named functions here or in
  the modules of the hash variants, so that the specification functions
  and the loops share them.
*/
module Murmur3 {
  import opened LittleEndian

  // =====================================================================
  // Primitives (kokkos_murmur3.hpp lines 14-53)

  /** 2^64: one more than the largest `uint64_t`, the type of a buffer
      length. */
  const U64: int := 0x1_0000_0000_0000_0000

  /** getblock32: the i-th 32-bit word of a byte buffer, least significant
      byte first. */
  function GetBlock32(p: seq<bv8>, i: nat): (w: bv32)
    requires 4 * i + 4 <= |p|
    ensures Bytes32(w) == p[4 * i .. 4 * i + 4]
  {
    Load32Le(p, 4 * i);
    Le32Bytes(p[4 * i .. 4 * i + 4]);
    Load32(p, 4 * i)
  }

  /** getblock64: the i-th 64-bit word of the buffer seen as `uint64_t`s. */
  function GetBlock64(p: seq<bv8>, i: nat): (w: bv64)
    requires 8 * i + 8 <= |p|
    ensures Bytes64(w) == p[8 * i .. 8 * i + 8]
  {
    Load64Le(p, 8 * i);
    Le64Bytes(p[8 * i .. 8 * i + 8]);
    Load64(p, 8 * i)
  }

  /** Byte `j` of the `rem` tail bytes that start at offset `tail`, or 0
      past their end: the bytes after the last full block, as the tail
      switches read them: byte j is taken in case j + 1 and every case
      above it. */
  function TailByte(p: seq<bv8>, tail: nat, rem: nat, j: nat): bv8
    requires tail + rem <= |p|
  {
    if j < rem then p[tail + j] else 0
  }

  /** A block word holds exactly the four bytes it was read from. */
  lemma GetBlock32Bytes(p: seq<bv8>, i: nat)
    requires 4 * i + 4 <= |p|
    ensures GetBlock32(p, i) == Le32(p[4 * i .. 4 * i + 4])
    ensures Bytes32(GetBlock32(p, i)) == p[4 * i .. 4 * i + 4]
  {
    Load32Le(p, 4 * i);
    Le32Bytes(p[4 * i .. 4 * i + 4]);
  }

  /** getblock32 as the sum the source's shifts and ors compute: byte
      4i + j weighs 2^(8j), and no two bytes overlap, so the sum does not
      wrap. */
  lemma GetBlock32Sum(p: seq<bv8>, i: nat)
    requires 4 * i + 4 <= |p|
    ensures GetBlock32(p, i) == (p[4 * i] as bv32) + 0x100 * (p[4 * i + 1] as bv32) + 0x1_0000 * (p[4 * i + 2] as bv32) + 0x100_0000 * (p[4 * i + 3] as bv32)
  {
    Le32OfSum(p[4 * i], p[4 * i + 1], p[4 * i + 2], p[4 * i + 3]);
  }

  lemma GetBlock64Bytes(p: seq<bv8>, i: nat)
    requires 8 * i + 8 <= |p|
    ensures GetBlock64(p, i) == Le64(p[8 * i .. 8 * i + 8])
    ensures Bytes64(GetBlock64(p, i)) == p[8 * i .. 8 * i + 8]
  {
    Load64Le(p, 8 * i);
    Le64Bytes(p[8 * i .. 8 * i + 8]);
  }

  /** rotl32: rotation of a 32-bit word left by `r` places.  A shift by 32
      is undefined in C++, so the amount is strictly between 0 and 32. */
  function Rotl32(x: bv32, r: bv8): bv32
    requires 0 < r < 32
  {
    (x << r) | (x >> (32 - r))
  }

  /** rotl64 as written: it rotates the 64-bit word but is declared to
      return `uint32_t`, so only the low 32 bits of the rotation survive;
      every caller widens that result back to 64 bits with zeros. */
  function Rotl64(x: bv64, r: bv8): bv32
    requires 0 < r < 64
  {
    (((x << r) | (x >> (64 - r))) & 0xFFFF_FFFF) as bv32
  }

  /** Every amount the hash routines pass to rotl32 gives a true rotation. */
  lemma Rotl32IsRotation(x: bv32)
    ensures Rotl32(x, 13) == x.RotateLeft(13) && Rotl32(x, 15) == x.RotateLeft(15)
    ensures Rotl32(x, 16) == x.RotateLeft(16) && Rotl32(x, 17) == x.RotateLeft(17)
    ensures Rotl32(x, 18) == x.RotateLeft(18) && Rotl32(x, 19) == x.RotateLeft(19)
  {
  }

  // Rotating by r and then by 32 - r gives the word back, one pair of
  // amounts at a time.
  lemma Rotl32Undo1(x: bv32) ensures Rotl32(Rotl32(x, 1), 31) == x && Rotl32(Rotl32(x, 31), 1) == x {}
  lemma Rotl32Undo2(x: bv32) ensures Rotl32(Rotl32(x, 2), 30) == x && Rotl32(Rotl32(x, 30), 2) == x {}
  lemma Rotl32Undo3(x: bv32) ensures Rotl32(Rotl32(x, 3), 29) == x && Rotl32(Rotl32(x, 29), 3) == x {}
  lemma Rotl32Undo4(x: bv32) ensures Rotl32(Rotl32(x, 4), 28) == x && Rotl32(Rotl32(x, 28), 4) == x {}
  lemma Rotl32Undo5(x: bv32) ensures Rotl32(Rotl32(x, 5), 27) == x && Rotl32(Rotl32(x, 27), 5) == x {}
  lemma Rotl32Undo6(x: bv32) ensures Rotl32(Rotl32(x, 6), 26) == x && Rotl32(Rotl32(x, 26), 6) == x {}
  lemma Rotl32Undo7(x: bv32) ensures Rotl32(Rotl32(x, 7), 25) == x && Rotl32(Rotl32(x, 25), 7) == x {}
  lemma Rotl32Undo8(x: bv32) ensures Rotl32(Rotl32(x, 8), 24) == x && Rotl32(Rotl32(x, 24), 8) == x {}
  lemma Rotl32Undo9(x: bv32) ensures Rotl32(Rotl32(x, 9), 23) == x && Rotl32(Rotl32(x, 23), 9) == x {}
  lemma Rotl32Undo10(x: bv32) ensures Rotl32(Rotl32(x, 10), 22) == x && Rotl32(Rotl32(x, 22), 10) == x {}
  lemma Rotl32Undo11(x: bv32) ensures Rotl32(Rotl32(x, 11), 21) == x && Rotl32(Rotl32(x, 21), 11) == x {}
  lemma Rotl32Undo12(x: bv32) ensures Rotl32(Rotl32(x, 12), 20) == x && Rotl32(Rotl32(x, 20), 12) == x {}
  lemma Rotl32Undo13(x: bv32) ensures Rotl32(Rotl32(x, 13), 19) == x && Rotl32(Rotl32(x, 19), 13) == x {}
  lemma Rotl32Undo14(x: bv32) ensures Rotl32(Rotl32(x, 14), 18) == x && Rotl32(Rotl32(x, 18), 14) == x {}
  lemma Rotl32Undo15(x: bv32) ensures Rotl32(Rotl32(x, 15), 17) == x && Rotl32(Rotl32(x, 17), 15) == x {}
  lemma Rotl32Undo16(x: bv32) ensures Rotl32(Rotl32(x, 16), 16) == x {}

  // The amounts in four bands, each with its complementary band.
  lemma Rotl32InverseFrom1(x: bv32, r: bv8)
    requires 1 <= r <= 4 || 28 <= r <= 31
    ensures Rotl32(Rotl32(x, r), 32 - r) == x
  {
    if r == 1 || r == 31 {
      Rotl32Undo1(x);
    } else if r == 2 || r == 30 {
      Rotl32Undo2(x);
    } else if r == 3 || r == 29 {
      Rotl32Undo3(x);
    } else {
      Rotl32Undo4(x);
    }
  }

  lemma Rotl32InverseFrom5(x: bv32, r: bv8)
    requires 5 <= r <= 8 || 24 <= r <= 27
    ensures Rotl32(Rotl32(x, r), 32 - r) == x
  {
    if r == 5 || r == 27 {
      Rotl32Undo5(x);
    } else if r == 6 || r == 26 {
      Rotl32Undo6(x);
    } else if r == 7 || r == 25 {
      Rotl32Undo7(x);
    } else {
      Rotl32Undo8(x);
    }
  }

  lemma Rotl32InverseFrom9(x: bv32, r: bv8)
    requires 9 <= r <= 12 || 20 <= r <= 23
    ensures Rotl32(Rotl32(x, r), 32 - r) == x
  {
    if r == 9 || r == 23 {
      Rotl32Undo9(x);
    } else if r == 10 || r == 22 {
      Rotl32Undo10(x);
    } else if r == 11 || r == 21 {
      Rotl32Undo11(x);
    } else {
      Rotl32Undo12(x);
    }
  }

  lemma Rotl32InverseFrom13(x: bv32, r: bv8)
    requires 13 <= r <= 16 || 16 <= r <= 19
    ensures Rotl32(Rotl32(x, r), 32 - r) == x
  {
    if r == 13 || r == 19 {
      Rotl32Undo13(x);
    } else if r == 14 || r == 18 {
      Rotl32Undo14(x);
    } else if r == 15 || r == 17 {
      Rotl32Undo15(x);
    } else {
      Rotl32Undo16(x);
    }
  }

  /** rotl32 is a true rotation for every amount it accepts: rotating back
      by the complementary amount restores the word. */
  lemma Rotl32Inverse(x: bv32, r: bv8)
    requires 0 < r < 32
    ensures Rotl32(Rotl32(x, r), 32 - r) == x
  {
    if r <= 4 || 28 <= r {
      Rotl32InverseFrom1(x, r);
    } else if r <= 8 || 24 <= r {
      Rotl32InverseFrom5(x, r);
    } else if r <= 12 || 20 <= r {
      Rotl32InverseFrom9(x, r);
    } else {
      Rotl32InverseFrom13(x, r);
    }
  }

  /** For every amount the x64 routines pass to rotl64, the widened result
      is the low half of the true 64-bit rotation and the high half is
      lost. */
  lemma Rotl64KeepsLowHalf(x: bv64)
    ensures Rotl64(x, 27) as bv64 == x.RotateLeft(27) & 0xFFFF_FFFF
    ensures Rotl64(x, 31) as bv64 == x.RotateLeft(31) & 0xFFFF_FFFF
  {
  }

  lemma Rotl64KeepsLowHalf33(x: bv64)
    ensures Rotl64(x, 33) as bv64 == x.RotateLeft(33) & 0xFFFF_FFFF
  {
  }

  /** Unlike a rotation, rotl64 as written is not one-to-one: two different
      words rotate to the same result. */
  lemma Rotl64NotInjective()
    ensures Rotl64(0x400, 31) == Rotl64(0, 31)
    ensures (0x400 as bv64).RotateLeft(31) != (0 as bv64).RotateLeft(31)
  {
  }

  // ---------------------------------------------------------------------
  // fmix32 / fmix64: the finalisation mixes.  Each is a chain of
  // invertible steps (xoring in the word shifted right, multiplying by
  // an odd constant), written one function per source line; the inverse chain
  // undoes them in reverse order, so both mixes are bijections.

  function XorShr16(h: bv32): bv32 { h ^ (h >> 16) }
  function XorShr13(h: bv32): bv32 { h ^ (h >> 13) }
  function MulFm32A(h: bv32): bv32 { h * 0x85eb_ca6b }
  function MulFm32B(h: bv32): bv32 { h * 0xc2b2_ae35 }

  /** fmix32 (lines 33-42). */
  function FMix32(h: bv32): bv32
  {
    XorShr16(MulFm32B(XorShr13(MulFm32A(XorShr16(h)))))
  }

  // Inverses of the steps: 0xa5cb9243 and 0x7ed1b41d are the inverses of
  // the two multipliers modulo 2^32, and a right xor-shift by 13 is undone
  // by xoring in the shifts by 13 and 26.
  function UnXorShr13(y: bv32): bv32 { y ^ (y >> 13) ^ (y >> 26) }
  function UnMulFm32A(y: bv32): bv32 { y * 0xa5cb_9243 }
  function UnMulFm32B(y: bv32): bv32 { y * 0x7ed1_b41d }

  /** The inverse of fmix32. */
  function UnFMix32(y: bv32): bv32
  {
    XorShr16(UnMulFm32A(UnXorShr13(UnMulFm32B(XorShr16(y)))))
  }

  lemma XorShr16Closed(h: bv32) ensures XorShr16(h ^ (h >> 16)) == h {}
  lemma XorShr13Closed(h: bv32) ensures UnXorShr13(h ^ (h >> 13)) == h {}
  lemma UnXorShr13Closed(y: bv32) ensures XorShr13(y ^ (y >> 13) ^ (y >> 26)) == y {}
  lemma MulFm32AClosed(h: bv32) ensures UnMulFm32A(h * 0x85eb_ca6b) == h && MulFm32A(h * 0xa5cb_9243) == h {}
  lemma MulFm32BClosed(h: bv32) ensures UnMulFm32B(h * 0xc2b2_ae35) == h && MulFm32B(h * 0x7ed1_b41d) == h {}

  /** Each step of fmix32 and its inverse step cancel, in either order. */
  lemma Fm32StepsInverse(h: bv32)
    ensures XorShr16(XorShr16(h)) == h
    ensures UnXorShr13(XorShr13(h)) == h && XorShr13(UnXorShr13(h)) == h
    ensures UnMulFm32A(MulFm32A(h)) == h && MulFm32A(UnMulFm32A(h)) == h
    ensures UnMulFm32B(MulFm32B(h)) == h && MulFm32B(UnMulFm32B(h)) == h
  {
    XorShr16Closed(h);
    XorShr13Closed(h);
    UnXorShr13Closed(h);
    MulFm32AClosed(h);
    MulFm32BClosed(h);
  }

  /** UnFMix32 undoes fmix32 ... */
  lemma {:induction false} UnFMix32FMix32(h: bv32)
    ensures UnFMix32(FMix32(h)) == h
  {
    var a := XorShr16(h);
    var b := MulFm32A(a);
    var c := XorShr13(b);
    var d := MulFm32B(c);
    Fm32StepsInverse(d);
    Fm32StepsInverse(c);
    Fm32StepsInverse(b);
    Fm32StepsInverse(a);
    Fm32StepsInverse(h);
  }

  /** ... and fmix32 undoes UnFMix32, so fmix32 is a bijection on 32-bit
      words. */
  lemma {:induction false} FMix32UnFMix32(y: bv32)
    ensures FMix32(UnFMix32(y)) == y
  {
    var a := XorShr16(y);
    var b := UnMulFm32B(a);
    var c := UnXorShr13(b);
    var d := UnMulFm32A(c);
    Fm32StepsInverse(d);
    Fm32StepsInverse(c);
    Fm32StepsInverse(b);
    Fm32StepsInverse(a);
    Fm32StepsInverse(y);
  }

  /** Distinct words never collide under fmix32, and 0 is its fixed point. */
  lemma FMix32Injective(a: bv32, b: bv32)
    ensures FMix32(a) == FMix32(b) <==> a == b
    ensures FMix32(0) == 0
  {
    UnFMix32FMix32(a);
    UnFMix32FMix32(b);
  }

  function XorShr33(k: bv64): bv64 { k ^ (k >> 33) }
  function MulFm64A(k: bv64): bv64 { k * 0xff51_afd7_ed55_8ccd }
  function MulFm64B(k: bv64): bv64 { k * 0xc4ce_b9fe_1a85_ec53 }

  /** fmix64 (lines 44-53). */
  function FMix64(k: bv64): bv64
  {
    XorShr33(MulFm64B(XorShr33(MulFm64A(XorShr33(k)))))
  }

  function UnMulFm64A(y: bv64): bv64 { y * 0x4f74_430c_22a5_4005 }
  function UnMulFm64B(y: bv64): bv64 { y * 0x9cb4_b2f8_1293_37db }

  /** The inverse of fmix64: a right xor-shift by 33 undoes itself. */
  function UnFMix64(y: bv64): bv64
  {
    XorShr33(UnMulFm64A(XorShr33(UnMulFm64B(XorShr33(y)))))
  }

  lemma XorShr33Closed(k: bv64) ensures XorShr33(k ^ (k >> 33)) == k {}
  lemma MulFm64AClosed(k: bv64) ensures UnMulFm64A(k * 0xff51_afd7_ed55_8ccd) == k && MulFm64A(k * 0x4f74_430c_22a5_4005) == k {}
  lemma MulFm64BClosed(k: bv64) ensures UnMulFm64B(k * 0xc4ce_b9fe_1a85_ec53) == k && MulFm64B(k * 0x9cb4_b2f8_1293_37db) == k {}

  lemma Fm64StepsInverse(k: bv64)
    ensures XorShr33(XorShr33(k)) == k
    ensures UnMulFm64A(MulFm64A(k)) == k && MulFm64A(UnMulFm64A(k)) == k
    ensures UnMulFm64B(MulFm64B(k)) == k && MulFm64B(UnMulFm64B(k)) == k
  {
    XorShr33Closed(k);
    MulFm64AClosed(k);
    MulFm64BClosed(k);
  }

  /** UnFMix64 undoes fmix64 ... */
  lemma {:induction false} UnFMix64FMix64(k: bv64)
    ensures UnFMix64(FMix64(k)) == k
  {
    var a := XorShr33(k);
    var b := MulFm64A(a);
    var c := XorShr33(b);
    var d := MulFm64B(c);
    Fm64StepsInverse(d);
    Fm64StepsInverse(c);
    Fm64StepsInverse(b);
    Fm64StepsInverse(a);
    Fm64StepsInverse(k);
  }

  /** ... and fmix64 undoes UnFMix64: fmix64 is a bijection on 64-bit
      words. */
  lemma {:induction false} FMix64UnFMix64(y: bv64)
    ensures FMix64(UnFMix64(y)) == y
  {
    var a := XorShr33(y);
    var b := UnMulFm64B(a);
    var c := XorShr33(b);
    var d := UnMulFm64A(c);
    Fm64StepsInverse(d);
    Fm64StepsInverse(c);
    Fm64StepsInverse(b);
    Fm64StepsInverse(a);
    Fm64StepsInverse(y);
  }

  lemma FMix64Injective(a: bv64, b: bv64)
    ensures FMix64(a) == FMix64(b) <==> a == b
    ensures FMix64(0) == 0
  {
    UnFMix64FMix64(a);
    UnFMix64FMix64(b);
  }

  // ---------------------------------------------------------------------
  // Folding one word into another by xor or by addition, named so that the
  // hash routines and their specifications build the same terms.

  function Xor32(h: bv32, k: bv32): bv32 { h ^ k }
  function Xor64(h: bv64, k: bv64): bv64 { h ^ k }
  function Add32(h: bv32, k: bv32): bv32 { h + k }
  function Add64(h: bv64, k: bv64): bv64 { h + k }

  /** Folding in the same word twice cancels, and adding the same word is
      one-to-one: subtracting it again gives the original back. */
  function Sub32(h: bv32, k: bv32): bv32 { h - k }
  function Sub64(h: bv64, k: bv64): bv64 { h - k }
  lemma AddSub32(a: bv32, k: bv32) ensures Sub32(a + k, k) == a {}
  lemma AddSub64(a: bv64, k: bv64) ensures Sub64(a + k, k) == a {}

  lemma Xor32Cancel(a: bv32, b: bv32, k: bv32) ensures Xor32(a, k) == Xor32(b, k) <==> a == b {}
  lemma Xor64Cancel(a: bv64, b: bv64, k: bv64) ensures Xor64(a, k) == Xor64(b, k) <==> a == b {}

  lemma Add32Cancels(a: bv32, b: bv32, k: bv32)
    requires Add32(a, k) == Add32(b, k)
    ensures a == b
  {
    AddSub32(a, k);
    AddSub32(b, k);
    assert Sub32(a + k, k) == Sub32(b + k, k);
  }

  lemma Add64Cancels(a: bv64, b: bv64, k: bv64)
    requires Add64(a, k) == Add64(b, k)
    ensures a == b
  {
    AddSub64(a, k);
    AddSub64(b, k);
    assert Sub64(a + k, k) == Sub64(b + k, k);
  }

  lemma Add32Cancel(a: bv32, b: bv32, k: bv32)
    ensures Add32(a, k) == Add32(b, k) <==> a == b
  {
    if Add32(a, k) == Add32(b, k) {
      Add32Cancels(a, b, k);
    }
  }

  lemma Add64Cancel(a: bv64, b: bv64, k: bv64)
    ensures Add64(a, k) == Add64(b, k) <==> a == b
  {
    if Add64(a, k) == Add64(b, k) {
      Add64Cancels(a, b, k);
    }
  }
}
