/**
  MurmurHash3_x86_32 and MurmurHash3_x86_128 (include/kokkos_murmur3.hpp
  lines 55-211): the two variants that work on 32-bit words.
*/
module Murmur3X86 {
  import opened LittleEndian
  import opened Murmur3

  // =====================================================================
  // Tails (lines 83-96 and 155-186).  The bytes left over after the last
  // full block are gathered, least significant first, into words of four
  // bytes ("lanes") that a fall-through switch assembles one byte at a
  // time; a lane that holds no byte is never mixed in.

  /** Lane `lane` of the tail: bytes 4*lane .. 4*lane+3 read as a
      little-endian word, byte 4*lane+b going to bits 8b .. 8b+7. */
  function TailWord32(p: seq<bv8>, tail: nat, rem: nat, lane: nat): bv32
    requires tail + rem <= |p|
  {
    var j := 4 * lane;
    Le32Of(TailByte(p, tail, rem, j), TailByte(p, tail, rem, j + 1), TailByte(p, tail, rem, j + 2), TailByte(p, tail, rem, j + 3))
  }

  /** A lane that holds at least one byte is the little-endian load of its
      bytes padded with zero bytes to a full word. */
  lemma TailWord32Padded(p: seq<bv8>, tail: nat, rem: nat, lane: nat)
    requires tail + rem <= |p| && 4 * lane < rem
    ensures var m := if rem - 4 * lane < 4 then rem - 4 * lane else 4;
      TailWord32(p, tail, rem, lane) == Le32(PadTo(p[tail + 4 * lane .. tail + 4 * lane + m], 4))
  {
    var m := if rem - 4 * lane < 4 then rem - 4 * lane else 4;
    var q := PadTo(p[tail + 4 * lane .. tail + 4 * lane + m], 4);
    var j := 4 * lane;
    assert TailByte(p, tail, rem, j) == q[0] && TailByte(p, tail, rem, j + 1) == q[1];
    assert TailByte(p, tail, rem, j + 2) == q[2] && TailByte(p, tail, rem, j + 3) == q[3];
  }

  /** The bytes of one lane, gathered by the cases of the fall-through
      switch that cover it, from its highest byte down: case 4*lane+b+1
      adds byte 4*lane+b.  A lane past the end of the tail stays 0. */
  method TailLane(data: seq<bv8>, tail: nat, rem: nat, lane: nat) returns (k: bv32)
    requires tail + rem <= |data|
    ensures k == TailWord32(data, tail, rem, lane)
  {
    var j := 4 * lane;
    k := 0;
    if rem >= j + 4 { k := k ^ ((data[tail + j + 3] as bv32) << 24); }
    if rem >= j + 3 { k := k ^ ((data[tail + j + 2] as bv32) << 16); }
    if rem >= j + 2 { k := k ^ ((data[tail + j + 1] as bv32) << 8); }
    if rem >= j + 1 { k := k ^ (data[tail + j] as bv32); }
  }

  // =====================================================================
  // MurmurHash3_x86_32 (lines 55-106)

  /** Lines 71-73 (and 92-94): a block word is multiplied by c1, rotated
      left by 15 and multiplied by c2. */
  function X86MixK(k: bv32): bv32
  {
    Rotl32(k * 0xcc9e_2d51, 15) * 0x1b87_3593
  }

  /** Lines 76-77: the accumulator is rotated left by 13, multiplied by 5
      and offset by 0xe6546b64. */
  function X86StepH(h: bv32): bv32
  {
    Rotl32(h, 13) * 5 + 0xe654_6b64
  }

  /** The accumulator after the first `n` four-byte blocks. */
  function X86_32Body(data: seq<bv8>, seed: bv32, n: nat): bv32
    requires 4 * n <= |data|
  {
    if n == 0 then seed
    else X86StepH(Xor32(X86_32Body(data, seed, n - 1), X86MixK(GetBlock32(data, n - 1))))
  }

  lemma X86_32BodyStep(data: seq<bv8>, seed: bv32, n: nat)
    requires 0 < n && 4 * n <= |data|
    ensures X86_32Body(data, seed, n) == X86StepH(Xor32(X86_32Body(data, seed, n - 1), X86MixK(GetBlock32(data, n - 1))))
  {
  }

  /** Lines 83-96: a tail of one to three bytes is mixed into the
      accumulator as one more, zero-padded, block word. */
  function X86_32TailMix(h: bv32, p: seq<bv8>, tail: nat, rem: nat): bv32
    requires tail + rem <= |p|
  {
    if rem == 0 then h else Xor32(h, X86MixK(TailWord32(p, tail, rem, 0)))
  }

  /** The accumulator after the body and the tail (lines 60-96). */
  function X86_32Mixed(data: seq<bv8>, seed: bv32): bv32
  {
    var n := |data| / 4;
    X86_32TailMix(X86_32Body(data, seed, n), data, 4 * n, |data| % 4)
  }

  /** The `int` length as the `uint32_t` it is converted to when it is
      xored into h1 (line 101): a non-negative `int` keeps its value. */
  function LenWord32(len: nat): bv32
    requires len < 0x8000_0000
  {
    len as bv32
  }

  /** Lines 101-103: the length is folded in, then fmix32. */
  function X86_32Final(h: bv32, len: nat): bv32
    requires len < 0x8000_0000
  {
    FMix32(Xor32(h, LenWord32(len)))
  }

  /** MurmurHash3_x86_32 of `data` with `seed`. */
  function X86_32(data: seq<bv8>, seed: bv32): bv32
    requires |data| < 0x8000_0000
  {
    X86_32Final(X86_32Mixed(data, seed), |data|)
  }

  /** MurmurHash3_x86_32: the block loop, the tail switch on `len & 3`
      (that is `len % 4`, `len` being non-negative) and the finalisation, as
      in the source. */
  method MurmurHash3X86_32(data: seq<bv8>, seed: bv32) returns (h1: bv32)
    requires |data| < 0x8000_0000
    ensures h1 == X86_32(data, seed)
  {
    var len := |data|;
    var nblocks := len / 4;
    h1 := seed;
    var i := 0;
    while i < nblocks
      invariant 0 <= i <= nblocks
      invariant h1 == X86_32Body(data, seed, i)
    {
      X86_32BodyStep(data, seed, i + 1);
      var k1 := GetBlock32(data, i);
      k1 := X86MixK(k1);
      h1 := Xor32(h1, k1);
      h1 := X86StepH(h1);
      i := i + 1;
    }

    var tail := 4 * nblocks;
    h1 := X86_32Tail(data, tail, len % 4, h1);
    assert h1 == X86_32Mixed(data, seed);

    h1 := Xor32(h1, LenWord32(len));
    h1 := FMix32(h1);
  }

  /** The tail switch of MurmurHash3_x86_32 (lines 83-96): `rem` is
      `len & 3`, the number of bytes left after the blocks, which start at
      offset `tail`; each case falls through to the next. */
  method X86_32Tail(data: seq<bv8>, tail: nat, rem: nat, h: bv32) returns (h1: bv32)
    requires rem < 4 && tail + rem <= |data|
    ensures h1 == X86_32TailMix(h, data, tail, rem)
  {
    h1 := h;
    var k1 := TailLane(data, tail, rem, 0);
    if rem >= 1 {
      k1 := X86MixK(k1);
      h1 := Xor32(h1, k1);
    }
  }

  /** A block word depends on the bytes of its block only, and on all of
      them: two buffers give the same word for block `i` exactly when
      their four bytes of block `i` agree, whatever the other bytes are. */
  lemma X86_32BlockLocal(a: seq<bv8>, b: seq<bv8>, i: nat)
    requires 4 * i + 4 <= |a| && 4 * i + 4 <= |b|
    ensures GetBlock32(a, i) == GetBlock32(b, i) <==> a[4 * i .. 4 * i + 4] == b[4 * i .. 4 * i + 4]
  {
    Load32Injective(a, b, 4 * i);
  }

  /** The accumulator depends on the block words only ... */
  lemma {:induction false} X86_32BodySameBlocks(a: seq<bv8>, b: seq<bv8>, seed: bv32, n: nat)
    requires 4 * n <= |a| && 4 * n <= |b|
    requires forall i :: 0 <= i < n ==> GetBlock32(a, i) == GetBlock32(b, i)
    ensures X86_32Body(a, seed, n) == X86_32Body(b, seed, n)
  {
    if n > 0 {
      X86_32BodySameBlocks(a, b, seed, n - 1);
      X86_32BodyStep(a, seed, n);
      X86_32BodyStep(b, seed, n);
    }
  }

  /** ... so the body reads its input as a stream: the accumulator after
      `n` blocks depends on the first 4n bytes only. */
  lemma X86_32BodyPrefix(a: seq<bv8>, b: seq<bv8>, seed: bv32, n: nat)
    requires 4 * n <= |a| && 4 * n <= |b|
    requires a[.. 4 * n] == b[.. 4 * n]
    ensures X86_32Body(a, seed, n) == X86_32Body(b, seed, n)
  {
    forall i | 0 <= i < n
      ensures GetBlock32(a, i) == GetBlock32(b, i)
    {
      assert a[4 * i .. 4 * i + 4] == a[.. 4 * n][4 * i .. 4 * i + 4];
      assert b[4 * i .. 4 * i + 4] == b[.. 4 * n][4 * i .. 4 * i + 4];
      X86_32BlockLocal(a, b, i);
    }
    X86_32BodySameBlocks(a, b, seed, n);
  }

  /** The finalisation loses nothing: for inputs of one length, two
      digests are equal exactly when the accumulators before it were. */
  lemma X86_32FinalInjective(h: bv32, g: bv32, len: nat)
    requires len < 0x8000_0000
    ensures X86_32Final(h, len) == X86_32Final(g, len) <==> h == g
  {
    FMix32Injective(Xor32(h, LenWord32(len)), Xor32(g, LenWord32(len)));
  }

  /** The empty input hashes to fmix32 of the seed: with seed 0 that is 0,
      and different seeds give different digests. */
  lemma X86_32Empty(seed: bv32, other: bv32)
    ensures X86_32([], seed) == FMix32(seed)
    ensures X86_32([], 0) == 0
    ensures X86_32([], seed) == X86_32([], other) <==> seed == other
  {
    FMix32Injective(seed, other);
  }

  // =====================================================================
  // MurmurHash3_x86_128 (lines 108-211)

  /** Lines 135, 139, 143, 147: block word j is multiplied by its
      constant, rotated left, and multiplied by the next constant. */
  function X86MixK1(k: bv32): bv32 { Rotl32(k * 0x239b_961b, 15) * 0xab0e_9789 }
  function X86MixK2(k: bv32): bv32 { Rotl32(k * 0xab0e_9789, 16) * 0x38b3_4ae5 }
  function X86MixK3(k: bv32): bv32 { Rotl32(k * 0x38b3_4ae5, 17) * 0xa1e3_8b93 }
  function X86MixK4(k: bv32): bv32 { Rotl32(k * 0xa1e3_8b93, 18) * 0x239b_961b }

  /** Lines 137, 141, 145, 149: accumulator j is rotated left, the
      neighbouring accumulator `g` is added, and the sum is multiplied by 5
      and offset by a constant. */
  function X86StepH1(h: bv32, g: bv32): bv32 { (Rotl32(h, 19) + g) * 5 + 0x561c_cd1b }
  function X86StepH2(h: bv32, g: bv32): bv32 { (Rotl32(h, 17) + g) * 5 + 0x0bca_a747 }
  function X86StepH3(h: bv32, g: bv32): bv32 { (Rotl32(h, 15) + g) * 5 + 0x96cd_1c35 }
  function X86StepH4(h: bv32, g: bv32): bv32 { (Rotl32(h, 13) + g) * 5 + 0x32ac_3b17 }

  /** Word `j` of the sixteen-byte block `i`. */
  function X86_128Block(p: seq<bv8>, i: nat, j: nat): bv32
    requires j < 4 && 16 * i + 16 <= |p|
  {
    GetBlock32(p, 4 * i + j)
  }

  /** The four accumulators after the first `n` blocks.  Within a round h1,
      h2 and h3 each take in the value their right neighbour had before the
      round, while h4 takes in the h1 of the same round. */
  function X86_128H1(p: seq<bv8>, seed: bv32, n: nat): bv32
    requires 16 * n <= |p|
    decreases n, 0
  {
    if n == 0 then seed
    else X86StepH1(Xor32(X86_128H1(p, seed, n - 1), X86MixK1(X86_128Block(p, n - 1, 0))), X86_128H2(p, seed, n - 1))
  }

  function X86_128H2(p: seq<bv8>, seed: bv32, n: nat): bv32
    requires 16 * n <= |p|
    decreases n, 0
  {
    if n == 0 then seed
    else X86StepH2(Xor32(X86_128H2(p, seed, n - 1), X86MixK2(X86_128Block(p, n - 1, 1))), X86_128H3(p, seed, n - 1))
  }

  function X86_128H3(p: seq<bv8>, seed: bv32, n: nat): bv32
    requires 16 * n <= |p|
    decreases n, 0
  {
    if n == 0 then seed
    else X86StepH3(Xor32(X86_128H3(p, seed, n - 1), X86MixK3(X86_128Block(p, n - 1, 2))), X86_128H4(p, seed, n - 1))
  }

  function X86_128H4(p: seq<bv8>, seed: bv32, n: nat): bv32
    requires 16 * n <= |p|
    decreases n, 1
  {
    if n == 0 then seed
    else X86StepH4(Xor32(X86_128H4(p, seed, n - 1), X86MixK4(X86_128Block(p, n - 1, 3))), X86_128H1(p, seed, n))
  }

  lemma X86_128BodyStep(p: seq<bv8>, seed: bv32, n: nat)
    requires 0 < n && 16 * n <= |p|
    ensures X86_128H1(p, seed, n) == X86StepH1(Xor32(X86_128H1(p, seed, n - 1), X86MixK1(X86_128Block(p, n - 1, 0))), X86_128H2(p, seed, n - 1))
    ensures X86_128H2(p, seed, n) == X86StepH2(Xor32(X86_128H2(p, seed, n - 1), X86MixK2(X86_128Block(p, n - 1, 1))), X86_128H3(p, seed, n - 1))
    ensures X86_128H3(p, seed, n) == X86StepH3(Xor32(X86_128H3(p, seed, n - 1), X86MixK3(X86_128Block(p, n - 1, 2))), X86_128H4(p, seed, n - 1))
    ensures X86_128H4(p, seed, n) == X86StepH4(Xor32(X86_128H4(p, seed, n - 1), X86MixK4(X86_128Block(p, n - 1, 3))), X86_128H1(p, seed, n))
  {
  }

  lemma X86_128WordLocal(a: seq<bv8>, b: seq<bv8>, i: nat, j: nat)
    requires j < 4 && 16 * i + 16 <= |a| && 16 * i + 16 <= |b|
    ensures X86_128Block(a, i, j) == X86_128Block(b, i, j)
        <==> a[16 * i + 4 * j .. 16 * i + 4 * j + 4] == b[16 * i + 4 * j .. 16 * i + 4 * j + 4]
  {
    Load32Injective(a, b, 16 * i + 4 * j);
  }

  /** A block depends on its own sixteen bytes only, and on all of them:
      two buffers give the same four words for block `i` exactly when their
      bytes of block `i` agree, whatever the other bytes are. */
  lemma X86_128BlockLocal(a: seq<bv8>, b: seq<bv8>, i: nat)
    requires 16 * i + 16 <= |a| && 16 * i + 16 <= |b|
    ensures X86_128Block(a, i, 0) == X86_128Block(b, i, 0) && X86_128Block(a, i, 1) == X86_128Block(b, i, 1)
        && X86_128Block(a, i, 2) == X86_128Block(b, i, 2) && X86_128Block(a, i, 3) == X86_128Block(b, i, 3)
        <==> a[16 * i .. 16 * i + 16] == b[16 * i .. 16 * i + 16]
  {
    var lo := 16 * i;
    X86_128WordLocal(a, b, i, 0);
    X86_128WordLocal(a, b, i, 1);
    X86_128WordLocal(a, b, i, 2);
    X86_128WordLocal(a, b, i, 3);
    SliceSplit(a, b, lo, lo + 8, lo + 16);
    SliceSplit(a, b, lo, lo + 4, lo + 8);
    SliceSplit(a, b, lo + 8, lo + 12, lo + 16);
  }

  /** The four accumulators depend on the block words only ... */
  lemma {:induction false} X86_128BodySameBlocks(a: seq<bv8>, b: seq<bv8>, seed: bv32, n: nat)
    requires 16 * n <= |a| && 16 * n <= |b|
    requires forall i, j :: 0 <= i < n && 0 <= j < 4 ==> X86_128Block(a, i, j) == X86_128Block(b, i, j)
    ensures X86_128H1(a, seed, n) == X86_128H1(b, seed, n) && X86_128H2(a, seed, n) == X86_128H2(b, seed, n)
    ensures X86_128H3(a, seed, n) == X86_128H3(b, seed, n) && X86_128H4(a, seed, n) == X86_128H4(b, seed, n)
  {
    if n > 0 {
      X86_128BodySameBlocks(a, b, seed, n - 1);
      X86_128BodyStep(a, seed, n);
      X86_128BodyStep(b, seed, n);
    }
  }

  /** ... so the body reads its input as a stream: the accumulators after
      `n` blocks depend on the first 16n bytes only. */
  lemma X86_128BodyPrefix(a: seq<bv8>, b: seq<bv8>, seed: bv32, n: nat)
    requires 16 * n <= |a| && 16 * n <= |b|
    requires a[.. 16 * n] == b[.. 16 * n]
    ensures X86_128H1(a, seed, n) == X86_128H1(b, seed, n) && X86_128H2(a, seed, n) == X86_128H2(b, seed, n)
    ensures X86_128H3(a, seed, n) == X86_128H3(b, seed, n) && X86_128H4(a, seed, n) == X86_128H4(b, seed, n)
  {
    forall i, j | 0 <= i < n && 0 <= j < 4
      ensures X86_128Block(a, i, j) == X86_128Block(b, i, j)
    {
      assert a[16 * i .. 16 * i + 16] == a[.. 16 * n][16 * i .. 16 * i + 16];
      assert b[16 * i .. 16 * i + 16] == b[.. 16 * n][16 * i .. 16 * i + 16];
      X86_128BlockLocal(a, b, i);
    }
    X86_128BodySameBlocks(a, b, seed, n);
  }

  /** The byte address the loop reads word `j` of block `i` from.  The
      source points `blocks` just past the last block and indexes it with
      the unsigned 64-bit `(i-nblocks)*4+j`, which wraps to a huge number;
      scaled by four and added to the pointer, it wraps back onto the
      block.  The arithmetic is written out modulo 2^64. */
  function X86_128BlockAddr(nblocks: nat, i: nat, j: nat): (a: nat)
    requires i < nblocks && j < 4 && 16 * nblocks < U64
    ensures a == 16 * i + 4 * j
  {
    var idx := ((i - nblocks) * 4 + j) % U64;
    assert idx == U64 + 4 * i + j - 4 * nblocks;
    (16 * nblocks + 4 * idx) % U64
  }

  /** getblock32 at the wrapped index: the word the loop reads, which is
      word `j` of block `i`. */
  function X86_128WrappedBlock(p: seq<bv8>, nblocks: nat, i: nat, j: nat): (k: bv32)
    requires i < nblocks && j < 4 && 16 * nblocks <= |p| && 16 * nblocks < U64
    ensures k == X86_128Block(p, i, j)
  {
    Load32(p, X86_128BlockAddr(nblocks, i, j))
  }

  /** Lines 155-186: each lane of the tail that holds a byte is mixed into
      its own accumulator. */
  function X86_128Tail1(h: bv32, p: seq<bv8>, tail: nat, rem: nat): bv32
    requires tail + rem <= |p|
  {
    if 0 < rem then Xor32(h, X86MixK1(TailWord32(p, tail, rem, 0))) else h
  }

  function X86_128Tail2(h: bv32, p: seq<bv8>, tail: nat, rem: nat): bv32
    requires tail + rem <= |p|
  {
    if 4 < rem then Xor32(h, X86MixK2(TailWord32(p, tail, rem, 1))) else h
  }

  function X86_128Tail3(h: bv32, p: seq<bv8>, tail: nat, rem: nat): bv32
    requires tail + rem <= |p|
  {
    if 8 < rem then Xor32(h, X86MixK3(TailWord32(p, tail, rem, 2))) else h
  }

  function X86_128Tail4(h: bv32, p: seq<bv8>, tail: nat, rem: nat): bv32
    requires tail + rem <= |p|
  {
    if 12 < rem then Xor32(h, X86MixK4(TailWord32(p, tail, rem, 3))) else h
  }

  /** The accumulators after the body and the tail (lines 113-186). */
  function X86_128Mixed1(data: seq<bv8>, seed: bv32): bv32
  {
    var n := |data| / 16;
    X86_128Tail1(X86_128H1(data, seed, n), data, 16 * n, |data| % 16)
  }

  function X86_128Mixed2(data: seq<bv8>, seed: bv32): bv32
  {
    var n := |data| / 16;
    X86_128Tail2(X86_128H2(data, seed, n), data, 16 * n, |data| % 16)
  }

  function X86_128Mixed3(data: seq<bv8>, seed: bv32): bv32
  {
    var n := |data| / 16;
    X86_128Tail3(X86_128H3(data, seed, n), data, 16 * n, |data| % 16)
  }

  function X86_128Mixed4(data: seq<bv8>, seed: bv32): bv32
  {
    var n := |data| / 16;
    X86_128Tail4(X86_128H4(data, seed, n), data, 16 * n, |data| % 16)
  }

  /** Lines 126-150: the block loop of MurmurHash3_x86_128, which reads
      each block word through the wrapped index of the source. */
  method X86_128Body(data: seq<bv8>, seed: bv32) returns (h1: bv32, h2: bv32, h3: bv32, h4: bv32)
    requires |data| < U64
    ensures h1 == X86_128H1(data, seed, |data| / 16) && h2 == X86_128H2(data, seed, |data| / 16)
    ensures h3 == X86_128H3(data, seed, |data| / 16) && h4 == X86_128H4(data, seed, |data| / 16)
  {
    var nblocks := |data| / 16;
    h1, h2, h3, h4 := seed, seed, seed, seed;
    var i := 0;
    while i < nblocks
      invariant 0 <= i <= nblocks
      invariant h1 == X86_128H1(data, seed, i) && h2 == X86_128H2(data, seed, i)
      invariant h3 == X86_128H3(data, seed, i) && h4 == X86_128H4(data, seed, i)
    {
      X86_128BodyStep(data, seed, i + 1);
      var k1 := X86_128WrappedBlock(data, nblocks, i, 0);
      var k2 := X86_128WrappedBlock(data, nblocks, i, 1);
      var k3 := X86_128WrappedBlock(data, nblocks, i, 2);
      var k4 := X86_128WrappedBlock(data, nblocks, i, 3);

      k1 := X86MixK1(k1); h1 := Xor32(h1, k1);
      h1 := X86StepH1(h1, h2);
      k2 := X86MixK2(k2); h2 := Xor32(h2, k2);
      h2 := X86StepH2(h2, h3);
      k3 := X86MixK3(k3); h3 := Xor32(h3, k3);
      h3 := X86StepH3(h3, h4);
      k4 := X86MixK4(k4); h4 := Xor32(h4, k4);
      h4 := X86StepH4(h4, h1);
      i := i + 1;
    }
  }

  /** The body and the tail of MurmurHash3_x86_128 (lines 110-186): the
      four accumulators that the finalisation starts from. */
  method X86_128Accumulate(data: seq<bv8>, seed: bv32) returns (h1: bv32, h2: bv32, h3: bv32, h4: bv32)
    requires |data| < U64
    ensures h1 == X86_128Mixed1(data, seed) && h2 == X86_128Mixed2(data, seed)
    ensures h3 == X86_128Mixed3(data, seed) && h4 == X86_128Mixed4(data, seed)
  {
    h1, h2, h3, h4 := X86_128Body(data, seed);
    var tail := 16 * (|data| / 16);
    h1, h2, h3, h4 := X86_128TailSwitch(data, tail, |data| % 16, h1, h2, h3, h4);
  }

  /** The tail switch of MurmurHash3_x86_128 (lines 155-186): `rem` is
      `len & 15`; each case falls through to the next, and a lane is mixed
      in once its lowest byte has been added. */
  method X86_128TailSwitch(data: seq<bv8>, tail: nat, rem: nat, g1: bv32, g2: bv32, g3: bv32, g4: bv32)
    returns (h1: bv32, h2: bv32, h3: bv32, h4: bv32)
    requires rem < 16 && tail + rem <= |data|
    ensures h1 == X86_128Tail1(g1, data, tail, rem) && h2 == X86_128Tail2(g2, data, tail, rem)
    ensures h3 == X86_128Tail3(g3, data, tail, rem) && h4 == X86_128Tail4(g4, data, tail, rem)
  {
    h1, h2, h3, h4 := g1, g2, g3, g4;
    var k4 := TailLane(data, tail, rem, 3);
    if rem >= 13 { k4 := X86MixK4(k4); h4 := Xor32(h4, k4); }
    var k3 := TailLane(data, tail, rem, 2);
    if rem >= 9 { k3 := X86MixK3(k3); h3 := Xor32(h3, k3); }
    var k2 := TailLane(data, tail, rem, 1);
    if rem >= 5 { k2 := X86MixK2(k2); h2 := Xor32(h2, k2); }
    var k1 := TailLane(data, tail, rem, 0);
    if rem >= 1 { k1 := X86MixK1(k1); h1 := Xor32(h1, k1); }
  }

  /** The `uint64_t` length as it is xored into a `uint32_t` accumulator
      (line 192): only its low 32 bits take part. */
  function LenLow32(len: nat): bv32
  {
    (len % 0x1_0000_0000) as bv32
  }

  /** The three additions into h1 at lines 194 and 202. */
  function Sum4(a: bv32, b: bv32, c: bv32, d: bv32): bv32 { Add32(Add32(Add32(a, b), c), d) }

  /** Those additions are one-to-one in h1. */
  lemma Sum4Cancel(a: bv32, b: bv32, x: bv32, y: bv32, z: bv32)
    ensures Sum4(a, x, y, z) == Sum4(b, x, y, z) <==> a == b
  {
    Add32Cancel(Add32(Add32(a, x), y), Add32(Add32(b, x), y), z);
    Add32Cancel(Add32(a, x), Add32(b, x), y);
    Add32Cancel(a, b, x);
  }

  /** Four words stored one after the other, as the digest is written. */
  function Words32(w1: bv32, w2: bv32, w3: bv32, w4: bv32): (d: seq<bv8>)
    ensures |d| == 16
  {
    Bytes32(w1) + Bytes32(w2) + Bytes32(w3) + Bytes32(w4)
  }

  /** A word stored after `pre` reads back at offset `|pre|`. */
  lemma Load32Stored(pre: seq<bv8>, w: bv32, post: seq<bv8>)
    ensures Load32(pre + Bytes32(w) + post, |pre|) == w
  {
    var d := pre + Bytes32(w) + post;
    assert d[|pre| .. |pre| + 4] == Bytes32(w);
    Load32Le(d, |pre|);
  }

  /** Each word can be read back from the digest at its offset ... */
  lemma Words32Load(w1: bv32, w2: bv32, w3: bv32, w4: bv32)
    ensures var d := Words32(w1, w2, w3, w4);
      Load32(d, 0) == w1 && Load32(d, 4) == w2 && Load32(d, 8) == w3 && Load32(d, 12) == w4
  {
    var b1, b2, b3, b4 := Bytes32(w1), Bytes32(w2), Bytes32(w3), Bytes32(w4);
    var d := Words32(w1, w2, w3, w4);
    assert d == [] + b1 + (b2 + b3 + b4);
    Load32Stored([], w1, b2 + b3 + b4);
    assert d == b1 + b2 + (b3 + b4);
    Load32Stored(b1, w2, b3 + b4);
    assert d == b1 + b2 + b3 + b4 + [];
    Load32Stored(b1 + b2, w3, b4);
    Load32Stored(b1 + b2 + b3, w4, []);
  }

  /** ... so two digests are equal exactly when their words are. */
  lemma Words32Injective(a1: bv32, a2: bv32, a3: bv32, a4: bv32, b1: bv32, b2: bv32, b3: bv32, b4: bv32)
    ensures Words32(a1, a2, a3, a4) == Words32(b1, b2, b3, b4) <==> a1 == b1 && a2 == b2 && a3 == b3 && a4 == b4
  {
    Words32Load(a1, a2, a3, a4);
    Words32Load(b1, b2, b3, b4);
  }

  /** Lines 192-195: the length is folded into every accumulator and the
      accumulators are added into one another: h1 becomes the sum `s1` of
      all four, and each other accumulator h has `s1` added to it. */
  function X86_128Spread1(h1: bv32, h2: bv32, h3: bv32, h4: bv32, lw: bv32): bv32
  {
    Sum4(Xor32(h1, lw), Xor32(h2, lw), Xor32(h3, lw), Xor32(h4, lw))
  }

  function X86_128Spread(h: bv32, s1: bv32, lw: bv32): bv32
  {
    Add32(Xor32(h, lw), s1)
  }

  /** Lines 197-203: fmix32 of each, then the same additions again. */
  function X86_128Mix1(s1: bv32, s2: bv32, s3: bv32, s4: bv32): bv32
  {
    Sum4(FMix32(s1), FMix32(s2), FMix32(s3), FMix32(s4))
  }

  function X86_128Mix(s: bv32, o1: bv32): bv32
  {
    Add32(FMix32(s), o1)
  }

  /** Lines 192-208: the digest, the four words written out in order. */
  function X86_128Final(h1: bv32, h2: bv32, h3: bv32, h4: bv32, lw: bv32): (d: seq<bv8>)
    ensures |d| == 16
  {
    var s1 := X86_128Spread1(h1, h2, h3, h4, lw);
    var s2, s3, s4 := X86_128Spread(h2, s1, lw), X86_128Spread(h3, s1, lw), X86_128Spread(h4, s1, lw);
    var o1 := X86_128Mix1(s1, s2, s3, s4);
    Words32(o1, X86_128Mix(s2, o1), X86_128Mix(s3, o1), X86_128Mix(s4, o1))
  }

  /** MurmurHash3_x86_128 of `data` with `seed`: the 16-byte digest. */
  function X86_128(data: seq<bv8>, seed: bv32): (d: seq<bv8>)
    ensures |d| == 16
  {
    X86_128Final(X86_128Mixed1(data, seed), X86_128Mixed2(data, seed), X86_128Mixed3(data, seed), X86_128Mixed4(data, seed), LenLow32(|data|))
  }

  /** Lines 192-203: the finalisation of MurmurHash3_x86_128, giving the
      four words of the digest. */
  method X86_128Finalize(g1: bv32, g2: bv32, g3: bv32, g4: bv32, lw: bv32) returns (h1: bv32, h2: bv32, h3: bv32, h4: bv32)
    ensures Words32(h1, h2, h3, h4) == X86_128Final(g1, g2, g3, g4, lw)
  {
    h1 := Xor32(g1, lw); h2 := Xor32(g2, lw);
    h3 := Xor32(g3, lw); h4 := Xor32(g4, lw);

    h1 := Add32(h1, h2); h1 := Add32(h1, h3); h1 := Add32(h1, h4);
    h2 := Add32(h2, h1); h3 := Add32(h3, h1); h4 := Add32(h4, h1);
    assert h1 == X86_128Spread1(g1, g2, g3, g4, lw);
    assert h2 == X86_128Spread(g2, h1, lw) && h3 == X86_128Spread(g3, h1, lw) && h4 == X86_128Spread(g4, h1, lw);

    h1 := FMix32(h1);
    h2 := FMix32(h2);
    h3 := FMix32(h3);
    h4 := FMix32(h4);

    h1 := Add32(h1, h2); h1 := Add32(h1, h3); h1 := Add32(h1, h4);
    h2 := Add32(h2, h1); h3 := Add32(h3, h1); h4 := Add32(h4, h1);
  }

  /** MurmurHash3_x86_128: writes the digest into the first 16 bytes of
      `out` and leaves the rest of it alone. */
  method MurmurHash3X86_128(data: seq<bv8>, seed: bv32, out: array<bv8>)
    requires |data| < U64 && 16 <= out.Length
    modifies out
    ensures out[.. 16] == X86_128(data, seed)
    ensures out[16 ..] == old(out[16 ..])
  {
    var h1, h2, h3, h4 := X86_128Accumulate(data, seed);
    h1, h2, h3, h4 := X86_128Finalize(h1, h2, h3, h4, LenLow32(|data|));
    assert Words32(h1, h2, h3, h4) == X86_128(data, seed);

    StoreWords32(out, h1, h2, h3, h4);
  }

  /** Lines 205-208: the four result words stored, least significant byte
      first, at offsets 0, 4, 8 and 12 of `out`. */
  method StoreWords32(out: array<bv8>, w1: bv32, w2: bv32, w3: bv32, w4: bv32)
    requires 16 <= out.Length
    modifies out
    ensures out[.. 16] == Words32(w1, w2, w3, w4)
    ensures out[16 ..] == old(out[16 ..])
  {
    ghost var d := Words32(w1, w2, w3, w4);
    Store32(out, 0, w1);
    assert forall k :: 0 <= k < 4 ==> out[k] == d[k];
    Store32(out, 4, w2);
    assert forall k :: 0 <= k < 8 ==> out[k] == d[k];
    Store32(out, 8, w3);
    assert forall k :: 0 <= k < 12 ==> out[k] == d[k];
    Store32(out, 12, w4);
    assert out[.. 16] == d;
  }

  /** The finalisation loses nothing: for inputs of one length, two
      digests are equal exactly when the four accumulators before it were.
      Each stage can be undone: the words are read back from the bytes,
      fmix32 is a bijection, and every addition and the xor of the length
      cancel. */
  lemma X86_128FinalInjective(h1: bv32, h2: bv32, h3: bv32, h4: bv32, g1: bv32, g2: bv32, g3: bv32, g4: bv32, lw: bv32)
    ensures X86_128Final(h1, h2, h3, h4, lw) == X86_128Final(g1, g2, g3, g4, lw) <==> h1 == g1 && h2 == g2 && h3 == g3 && h4 == g4
  {
    if X86_128Final(h1, h2, h3, h4, lw) == X86_128Final(g1, g2, g3, g4, lw) {
      var s1 := X86_128Spread1(h1, h2, h3, h4, lw);
      var s2, s3, s4 := X86_128Spread(h2, s1, lw), X86_128Spread(h3, s1, lw), X86_128Spread(h4, s1, lw);
      var o1 := X86_128Mix1(s1, s2, s3, s4);
      var t1 := X86_128Spread1(g1, g2, g3, g4, lw);
      var t2, t3, t4 := X86_128Spread(g2, t1, lw), X86_128Spread(g3, t1, lw), X86_128Spread(g4, t1, lw);
      var p1 := X86_128Mix1(t1, t2, t3, t4);
      // The digest words.
      Words32Injective(o1, X86_128Mix(s2, o1), X86_128Mix(s3, o1), X86_128Mix(s4, o1),
                       p1, X86_128Mix(t2, p1), X86_128Mix(t3, p1), X86_128Mix(t4, p1));
      // The second additions, then fmix32.
      Add32Cancel(FMix32(s2), FMix32(t2), o1);
      Add32Cancel(FMix32(s3), FMix32(t3), o1);
      Add32Cancel(FMix32(s4), FMix32(t4), o1);
      FMix32Injective(s2, t2);
      FMix32Injective(s3, t3);
      FMix32Injective(s4, t4);
      Sum4Cancel(FMix32(s1), FMix32(t1), FMix32(s2), FMix32(s3), FMix32(s4));
      FMix32Injective(s1, t1);
      // The first additions, then the length.
      Add32Cancel(Xor32(h2, lw), Xor32(g2, lw), s1);
      Add32Cancel(Xor32(h3, lw), Xor32(g3, lw), s1);
      Add32Cancel(Xor32(h4, lw), Xor32(g4, lw), s1);
      Xor32Cancel(h2, g2, lw);
      Xor32Cancel(h3, g3, lw);
      Xor32Cancel(h4, g4, lw);
      Sum4Cancel(Xor32(h1, lw), Xor32(g1, lw), Xor32(h2, lw), Xor32(h3, lw), Xor32(h4, lw));
      Xor32Cancel(h1, g1, lw);
    }
  }

  /** The empty input hashes, with seed 0, to sixteen zero bytes. */
  lemma X86_128EmptyZero()
    ensures X86_128([], 0) == Zeros(16)
  {
    assert FMix32(0) == 0;
    assert Bytes32(0) == Zeros(4);
  }
}
