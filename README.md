# Digest hashing and digest-keyed maps of Kokkos_Hash_Profiling, in Dafny

The profiler fingerprints buffers with a port of MurmurHash3
(`include/kokkos_murmur3.hpp`) and files the resulting 16-byte digests
in concurrent hash maps keyed by digest (`include/map_helpers.hpp`). This
project models that toolkit and proves what it guarantees:

- the word helpers `getblock32`, `getblock64`, `rotl32` and `rotl64`;
- the finalisers `fmix32` and `fmix64`;
- the four hash routines `MurmurHash3_x86_32`, `MurmurHash3_x86_128`,
  `MurmurHash3_x64_128` and `MurmurHash3_x64_64`, and `hash`;
- the chunked byte comparison `bitwise_equal`;
- the `HashDigest` key and its helpers: `digest_to_u32`,
  `CompareHashDigest`, `digests_same`, `digest_equal_to`, both
  `digest_hash` overloads, and the `NodeID` value.

Words are `bv32`/`bv64`, so `uint32_t`/`uint64_t` wrap-around is
bit-vector arithmetic. Buffers are `seq<bv8>`. The `out`/`digest`
buffers the routines write into are `array<bv8>`. Every cast of a byte
pointer to a word pointer is modelled as an explicit little-endian read
or write of the bytes. The model therefore assumes a little-endian host,
which is what the source's type punning yields on the machines it
targets.

Each hash routine is a method with the source's loop, fall-through tail
switch, finalisation and stores. Each method is proved equal to a
specification function defined by recursion over the blocks; the loop and
the function call the same named round steps. Properties are then proved
about the specification functions:

- the finalisations are one-to-one;
- the block loops read their input as a stream;
- tail bytes land at the positions the switch gives them;
- the empty input hashes to zero with seed 0;
- the 64-bit digest is the first half of the 128-bit one.

The comparison loops are methods proved equivalent to equality of byte
sequences.

Modules:

| file | module | what it holds |
|---|---|---|
| `little_endian.dfy` | `LittleEndian` | little-endian encoding and decoding of 16-, 32- and 64-bit words, word loads and stores at byte offsets |
| `murmur3.dfy` | `Murmur3` | `getblock32/64`, `rotl32/64`, `fmix32/64` with their inverses, wrap-around xor/add cancellation |
| `murmur3_x86.dfy` | `Murmur3X86` | `MurmurHash3_x86_32` and `MurmurHash3_x86_128` |
| `murmur3_x64.dfy` | `Murmur3X64` | `MurmurHash3_x64_128`, `MurmurHash3_x64_64` and `hash` |
| `bitwise_equal.dfy` | `ByteCompare` | `bitwise_equal` |
| `map_helpers.dfy` | `MapHelpers` | `HashDigest`, `digest_to_u32`, the three digest comparisons, `digest_hash`, `NodeID` |

The model follows the code everywhere. The code departs from the
published MurmurHash3 in two places:

- **`rotl64` truncates.** The code's `rotl64` is declared to return
  `uint32_t`, so every 64-bit rotation keeps only its low 32 bits, and the
  caller widens them back with zeros. The model reproduces this, so the
  resulting digests are not the published MurmurHash3 values.
  `Murmur3.Rotl64NotInjective` exhibits two words that the truncated
  rotation maps to the same value.
- **`MurmurHash3_x64_64` writes only its first word.** The second store
  is commented out, so `out[8..16]` keeps whatever it held. `hash` uses
  `MurmurHash3_x64_128`, which writes all sixteen bytes.

Two further facts about the code, which the model states:

- With seed 0, the empty input hashes to sixteen zero bytes: the
  accumulators stay 0, the length xored in is 0, and `fmix64(0) == 0`.
  See `Murmur3X64.X64_128EmptyZero`.
- `digests_same`, `CompareHashDigest` and `digest_equal_to` all return at
  the first difference, and the model's loops do the same.

## Model

| member | source | states |
|---|---|---|
| LittleEndian.Le32OfSum | include/kokkos_murmur3.hpp:18-19 | or-ing the four shifted bytes of a word is the same as adding them with weights 2^0, 2^8, 2^16, 2^24 |
| LittleEndian.Bytes32 | include/kokkos_murmur3.hpp:205-208 | a 32-bit word stored as bytes gives four bytes that decode back to the word |
| LittleEndian.Bytes64 | include/kokkos_murmur3.hpp:288-289 | a 64-bit word stored as bytes gives eight bytes that decode back to the word |
| LittleEndian.Le16Bytes | include/kokkos_murmur3.hpp:420-422 | decoding two bytes as a 16-bit word and storing it again gives the same two bytes |
| LittleEndian.Le32Bytes | include/kokkos_murmur3.hpp:18-19 | decoding four bytes and storing the word again gives the same four bytes |
| LittleEndian.Le64Bytes | include/kokkos_murmur3.hpp:412-414 | decoding eight bytes and storing the word again gives the same eight bytes |
| LittleEndian.Le16Injective | include/kokkos_murmur3.hpp:420-422 | two 2-byte strings decode to the same word iff they are equal |
| LittleEndian.Le32Injective | include/kokkos_murmur3.hpp:416-418 | two 4-byte strings decode to the same word iff they are equal |
| LittleEndian.Le64Injective | include/kokkos_murmur3.hpp:412-414 | two 8-byte strings decode to the same word iff they are equal |
| LittleEndian.Load16Le | include/kokkos_murmur3.hpp:421 | a 16-bit read at a byte offset is the decoding of the two bytes there |
| LittleEndian.Load32Le | include/map_helpers.hpp:13-14 | a 32-bit read at a byte offset is the decoding of the four bytes there |
| LittleEndian.Load64Le | include/kokkos_murmur3.hpp:413 | a 64-bit read at a byte offset is the decoding of the eight bytes there |
| LittleEndian.Load16Injective | include/kokkos_murmur3.hpp:421 | two buffers give equal 16-bit reads at an offset iff their two bytes there agree |
| LittleEndian.Load32Injective | include/map_helpers.hpp:94-97 | two buffers give equal 32-bit reads at an offset iff their four bytes there agree |
| LittleEndian.Load64Injective | include/kokkos_murmur3.hpp:413 | two buffers give equal 64-bit reads at an offset iff their eight bytes there agree |
| LittleEndian.SamePrefixExtend | include/kokkos_murmur3.hpp:412-426 | two buffers agree on the first m + w bytes iff they agree on the first m and on the w bytes after them |
| LittleEndian.Store32 | include/kokkos_murmur3.hpp:205-208 | a store of a 32-bit word at a byte offset writes its four little-endian bytes there and changes no other byte |
| LittleEndian.Store64 | include/kokkos_murmur3.hpp:288-289 | a store of a 64-bit word at a byte offset writes its eight little-endian bytes there and changes no other byte |
| Murmur3.GetBlock32 | include/kokkos_murmur3.hpp:15-20 | getblock32(p, i) is the word whose four bytes, least significant first, are bytes 4i..4i+3 of the buffer |
| Murmur3.GetBlock64 | include/kokkos_murmur3.hpp:22-25 | getblock64(p, i), the i-th uint64_t of the buffer, is the word whose eight bytes, least significant first, are bytes 8i..8i+7 |
| Murmur3.GetBlock32Sum | include/kokkos_murmur3.hpp:15-20 | getblock32(p, i) is p[4i] + 2^8·p[4i+1] + 2^16·p[4i+2] + 2^24·p[4i+3] |
| Murmur3.GetBlock32Bytes | include/kokkos_murmur3.hpp:15-20 | getblock32(p, i) is the little-endian word of bytes 4i..4i+3, and storing it gives those bytes back |
| Murmur3.GetBlock64Bytes | include/kokkos_murmur3.hpp:22-25 | getblock64(p, i) is the little-endian word of bytes 8i..8i+7, and storing it gives those bytes back |
| Murmur3.Rotl32 | include/kokkos_murmur3.hpp:27-28 | defines rotl32 for 0 < r < 32, the amounts for which both shifts are defined; it carries no contract of its own, and Rotl32Inverse and Rotl32IsRotation below state that it is a rotation |
| Murmur3.Rotl64 | include/kokkos_murmur3.hpp:30-31 | defines rotl64 as written: the 64-bit rotation by 0 < r < 64, cut to the uint32_t the function is declared to return; it carries no contract of its own, and Rotl64KeepsLowHalf, Rotl64KeepsLowHalf33 and Rotl64NotInjective below state what is kept and what is lost |
| Murmur3.Rotl32Inverse | include/kokkos_murmur3.hpp:27-28 | for every 0 < r < 32, rotl32 by r followed by rotl32 by 32 - r gives the word back |
| Murmur3.Rotl32IsRotation | include/kokkos_murmur3.hpp:27-28 | for each amount the hash routines use (13, 15, 16, 17, 18, 19), rotl32 is the true 32-bit rotation |
| Murmur3.Rotl64KeepsLowHalf | include/kokkos_murmur3.hpp:30-31 | for amounts 27 and 31, rotl64 widened to 64 bits is the low half of the true rotation, so it is below 2^32 |
| Murmur3.Rotl64KeepsLowHalf33 | include/kokkos_murmur3.hpp:30-31 | the same for amount 33 |
| Murmur3.Rotl64NotInjective | include/kokkos_murmur3.hpp:30-31 | the truncated rotl64 maps two different words to one value, although their true rotations differ |
| Murmur3.FMix32 | include/kokkos_murmur3.hpp:33-42 | defines fmix32 as the five steps of lines 35-39, one function each; it carries no contract of its own, and FMix32Injective below states that it is a bijection fixing 0 |
| Murmur3.Fm32StepsInverse | include/kokkos_murmur3.hpp:35-39 | each step of fmix32 has an inverse step, in both orders |
| Murmur3.UnFMix32FMix32 | include/kokkos_murmur3.hpp:33-42 | the inverse chain undoes fmix32 |
| Murmur3.FMix32UnFMix32 | include/kokkos_murmur3.hpp:33-42 | fmix32 undoes the inverse chain |
| Murmur3.FMix32Injective | include/kokkos_murmur3.hpp:33-42 | fmix32(a) == fmix32(b) iff a == b, and fmix32(0) == 0 |
| Murmur3.FMix64 | include/kokkos_murmur3.hpp:44-53 | defines fmix64 as the five steps of lines 46-50, one function each; it carries no contract of its own, and FMix64Injective below states that it is a bijection fixing 0 |
| Murmur3.Fm64StepsInverse | include/kokkos_murmur3.hpp:46-50 | each step of fmix64 has an inverse step, in both orders |
| Murmur3.UnFMix64FMix64 | include/kokkos_murmur3.hpp:44-53 | the inverse chain undoes fmix64 |
| Murmur3.FMix64UnFMix64 | include/kokkos_murmur3.hpp:44-53 | fmix64 undoes the inverse chain |
| Murmur3.FMix64Injective | include/kokkos_murmur3.hpp:44-53 | fmix64(a) == fmix64(b) iff a == b, and fmix64(0) == 0 |
| Murmur3X86.TailWord32Padded | include/kokkos_murmur3.hpp:164-184 | a tail lane holding at least one byte is the little-endian word of its bytes padded with zeros, tail byte 4l + b at bits 8b of lane l |
| Murmur3X86.TailLane | include/kokkos_murmur3.hpp:164-184 | the fall-through cases assemble exactly that lane word, and a lane past the tail stays 0 |
| Murmur3X86.X86_32 | include/kokkos_murmur3.hpp:55-106 | the specification of MurmurHash3_x86_32: the finalisation of the accumulator left by the blocks and the tail; it carries no contract of its own, and MurmurHash3X86_32, X86_32BodyPrefix, X86_32FinalInjective and X86_32Empty state its properties |
| Murmur3X86.MurmurHash3X86_32 | include/kokkos_murmur3.hpp:55-106 | the routine returns the x86_32 hash of the data under the seed, as the specification function defines it |
| Murmur3X86.X86_32Tail | include/kokkos_murmur3.hpp:83-96 | the tail switch mixes the zero-padded tail word into h1 iff len & 3 is at least 1 |
| Murmur3X86.X86_32BlockLocal | include/kokkos_murmur3.hpp:69 | two buffers give the same word for block i iff their four bytes of block i agree, whatever their other bytes |
| Murmur3X86.X86_32BodySameBlocks | include/kokkos_murmur3.hpp:68-78 | inputs with the same first n block words give the same accumulator after n blocks |
| Murmur3X86.X86_32BodyPrefix | include/kokkos_murmur3.hpp:68-78 | the accumulator after n blocks depends only on the first 4n bytes |
| Murmur3X86.X86_32FinalInjective | include/kokkos_murmur3.hpp:101-103 | for one length, the finalisation gives equal hashes iff the accumulators were equal |
| Murmur3X86.X86_32Empty | include/kokkos_murmur3.hpp:55-106 | the empty input hashes to fmix32(seed): 0 for seed 0, and different seeds give different hashes |
| Murmur3X86.X86_128BlockLocal | include/kokkos_murmur3.hpp:130-133 | two buffers give the same four words for block i iff their sixteen bytes of block i agree, whatever their other bytes |
| Murmur3X86.X86_128BodySameBlocks | include/kokkos_murmur3.hpp:128-150 | inputs with the same first n blocks give the same four accumulators |
| Murmur3X86.X86_128BodyPrefix | include/kokkos_murmur3.hpp:128-150 | the four accumulators after n blocks depend only on the first 16n bytes |
| Murmur3X86.X86_128BlockAddr | include/kokkos_murmur3.hpp:126-133 | the byte address read through the wrapped unsigned index (i - nblocks)*4 + j, computed mod 2^64 from the pointer past the last block, is 16i + 4j |
| Murmur3X86.X86_128WrappedBlock | include/kokkos_murmur3.hpp:130-133 | the word read at that wrapped index is word j of block i |
| Murmur3X86.X86_128Body | include/kokkos_murmur3.hpp:126-150 | the loop leaves h1..h4 equal to the specification's accumulators after len / 16 blocks |
| Murmur3X86.X86_128TailSwitch | include/kokkos_murmur3.hpp:155-186 | the switch on len & 15 mixes lane l into accumulator l + 1 iff len & 15 exceeds 4l, and leaves it unchanged otherwise |
| Murmur3X86.X86_128Accumulate | include/kokkos_murmur3.hpp:110-186 | body then tail give the specification's four pre-finalisation accumulators |
| Murmur3X86.Words32 | include/kokkos_murmur3.hpp:205-208 | four words stored one after another make 16 bytes |
| Murmur3X86.Words32Load | include/kokkos_murmur3.hpp:205-208 | each of the four words reads back at byte offsets 0, 4, 8 and 12 |
| Murmur3X86.Words32Injective | include/kokkos_murmur3.hpp:205-208 | two 16-byte outputs are equal iff all four words are |
| Murmur3X86.X86_128Finalize | include/kokkos_murmur3.hpp:192-203 | the finalisation statements give the four digest words of the specification |
| Murmur3X86.X86_128 | include/kokkos_murmur3.hpp:108-211 | the specification of MurmurHash3_x86_128: a 16-byte digest, the four finalised words stored in order |
| Murmur3X86.MurmurHash3X86_128 | include/kokkos_murmur3.hpp:108-211 | out[0..16] becomes the x86_128 digest of the data under the seed, and the rest of out is unchanged |
| Murmur3X86.StoreWords32 | include/kokkos_murmur3.hpp:205-208 | the four stores write the four words little-endian into out[0..16] and nothing else |
| Murmur3X86.X86_128FinalInjective | include/kokkos_murmur3.hpp:192-208 | for one length, two digests are equal iff all four accumulators before finalisation were |
| Murmur3X86.X86_128EmptyZero | include/kokkos_murmur3.hpp:108-211 | the empty input with seed 0 hashes to sixteen zero bytes |
| Murmur3X64.X64Body | include/kokkos_murmur3.hpp:229-241 | the loop consumes exactly len / 16 blocks of two little-endian 64-bit words and leaves the specification's accumulators |
| Murmur3X64.X64BlockLocal | include/kokkos_murmur3.hpp:231-232 | two buffers give the same two words for block i iff their sixteen bytes of block i agree, whatever their other bytes |
| Murmur3X64.X64BodySameBlocks | include/kokkos_murmur3.hpp:229-241 | inputs with the same first n blocks give the same h1 and h2 |
| Murmur3X64.X64BodyPrefix | include/kokkos_murmur3.hpp:229-241 | h1 and h2 after n blocks depend only on the first 16n bytes |
| Murmur3X64.TailWord64Padded | include/kokkos_murmur3.hpp:253-269 | a tail lane holding a byte is the little-endian word of its bytes padded with zeros: tail byte j (j < 8) at shift 8j of k1, tail byte 8 + j at shift 8j of k2 |
| Murmur3X64.TailLane64 | include/kokkos_murmur3.hpp:253-269 | the fall-through cases assemble exactly that lane word from bytes 16(len/16) .. len - 1 |
| Murmur3X64.X64TailSwitch | include/kokkos_murmur3.hpp:251-271 | k2 is mixed into h2 iff len & 15 >= 9, and k1 into h1 iff len & 15 >= 1 |
| Murmur3X64.X64Accumulate | include/kokkos_murmur3.hpp:216-271 | body then tail give the specification's pre-finalisation h1 and h2 |
| Murmur3X64.Words64 | include/kokkos_murmur3.hpp:288-289 | two words stored one after another make 16 bytes |
| Murmur3X64.Words64Load | include/kokkos_murmur3.hpp:288-289 | the first eight bytes are the first word; each word reads back at offsets 0 and 8 |
| Murmur3X64.Words64Injective | include/kokkos_murmur3.hpp:288-289 | two 16-byte outputs are equal iff both words are |
| Murmur3X64.X64Finalize | include/kokkos_murmur3.hpp:277-286 | the finalisation statements give the two digest words of the specification |
| Murmur3X64.X64_128 | include/kokkos_murmur3.hpp:213-292 | the specification of MurmurHash3_x64_128: a 16-byte digest, the two finalised words stored in order |
| Murmur3X64.MurmurHash3X64_128 | include/kokkos_murmur3.hpp:213-292 | out[0..16] becomes the x64_128 digest, h1 little-endian in out[0..8] and h2 in out[8..16], and the rest of out is unchanged |
| Murmur3X64.StoreWords64 | include/kokkos_murmur3.hpp:288-289 | the two stores write h1 then h2 little-endian into out[0..16] and nothing else |
| Murmur3X64.X64_64 | include/kokkos_murmur3.hpp:294-373 | the specification of MurmurHash3_x64_64: the eight bytes of the first finalised word |
| Murmur3X64.MurmurHash3X64_64 | include/kokkos_murmur3.hpp:294-373 | out[0..8] becomes the x64_64 digest and out[8..] is left unchanged |
| Murmur3X64.StoreWord64 | include/kokkos_murmur3.hpp:369-370 | the one store writes h1 into out[0..8] and nothing else |
| Murmur3X64.Hash | include/kokkos_murmur3.hpp:431-437 | digest[0..16] becomes MurmurHash3_x64_128 of the data with seed 0, and the rest of the buffer is unchanged |
| Murmur3X64.X64_64Final128 | include/kokkos_murmur3.hpp:358-369 | from the same accumulators, the 64-bit finalisation is the first eight bytes of the 128-bit one |
| Murmur3X64.X64_64IsPrefix | include/kokkos_murmur3.hpp:294-373 | x64_64 of any input and seed is the first half of its x64_128 digest |
| Murmur3X64.X64_128FinalInjective | include/kokkos_murmur3.hpp:277-289 | for one length, two digests are equal iff h1 and h2 before finalisation were |
| Murmur3X64.X64_128EmptyZero | include/kokkos_murmur3.hpp:277-289 | the empty input with seed 0 gives sixteen zero bytes from x64_128 (so from hash) and eight from x64_64 |
| ByteCompare.WordCounts | include/kokkos_murmur3.hpp:395-426 | for n8 = sizeof(T), the 8-byte words, then the optional 4-, 2- and 1-byte chunks, each start where the previous stop and end at byte n8, so every byte is covered exactly once |
| ByteCompare.Equal64 | include/kokkos_murmur3.hpp:412-414 | the 8-byte loop yields true iff the first 8·(n8/8) bytes agree |
| ByteCompare.Equal32Step | include/kokkos_murmur3.hpp:416-418 | after the 4-byte check, the result is true iff the first 4·(n8/4) bytes agree |
| ByteCompare.Equal16Step | include/kokkos_murmur3.hpp:420-422 | after the 2-byte check, the result is true iff the first 2·(n8/2) bytes agree |
| ByteCompare.Equal8Step | include/kokkos_murmur3.hpp:424-426 | after the 1-byte check, the result is true iff all n8 bytes agree |
| ByteCompare.BitwiseEqual | include/kokkos_murmur3.hpp:386-429 | bitwise_equal returns true iff the two objects have the same bytes |
| MapHelpers.DigestToU32 | include/map_helpers.hpp:11-15 | digest_to_u32 is the xor of the four words of the digest read as uint32_t; it carries no contract of its own, and DigestToU32Bytes, DigestToU32Swap and DigestToU32Zero state its properties |
| MapHelpers.DigestToU32Bytes | include/map_helpers.hpp:11-15 | byte k of digest_to_u32 is the xor of digest bytes k, k+4, k+8 and k+12 |
| MapHelpers.XorFoldSwap | include/map_helpers.hpp:14 | the xor fold of four words is unchanged when any two of them trade places |
| MapHelpers.DigestToU32Swap | include/map_helpers.hpp:11-15 | exchanging any two words of a digest leaves digest_to_u32 unchanged |
| MapHelpers.DigestToU32Zero | include/map_helpers.hpp:11-15 | the all-zero digest gives 0 |
| MapHelpers.DigestsSame | include/map_helpers.hpp:28-36 | digests_same is true iff all 16 bytes are equal, returning false at the first difference |
| MapHelpers.CompareHashDigest | include/map_helpers.hpp:17-26 | the comparator is true iff the digests are equal, so it agrees with digests_same on every pair |
| MapHelpers.DigestEqualTo | include/map_helpers.hpp:87-103 | comparing the four little-endian words is true iff all 16 bytes are equal |
| MapHelpers.DigestHash | include/map_helpers.hpp:66-74 | the hash is the word whose four bytes, least significant first, are the first four bytes of the digest |
| MapHelpers.DigestHashSeeded | include/map_helpers.hpp:76-84 | the seeded overload is also the word of the first four digest bytes, whatever the seed |
| MapHelpers.DigestHashFirstBytes | include/map_helpers.hpp:66-74 | two digests hash alike iff their first four bytes agree; with DigestEqualTo, digests that digest_equal_to calls equal hash alike |
| MapHelpers.DigestHashSeedIgnored | include/map_helpers.hpp:76-84 | the seeded overload returns the unseeded hash, whatever the seed |
| MapHelpers.DefaultNodeID | include/map_helpers.hpp:42-46 | the default NodeID has node and tree at UINT_MAX, the largest value either field can hold |
| MapHelpers.NodeIDEquals | include/map_helpers.hpp:54-57 | operator== holds iff both fields match, so it is reflexive and symmetric |

## Left out

- The concurrent table `Kokkos::UnorderedMap` and the `DigestMap`,
  `DigestNodeIDDeviceMap`/`HostMap`, `DigestIdxDeviceMap`/`HostMap` and
  `IdxNodeIDDeviceMap`/`HostMap` aliases (include/map_helpers.hpp:105-113).
  The table's insert, find, probing and atomics live in the Kokkos
  library, which is not part of this model. The model states only what
  the table relies on from its hash and equality:
  `MapHelpers.DigestEqualTo` and `MapHelpers.DigestHashFirstBytes`.
- src/profiling_kokkos_murmur3.cpp, the benchmark driver (Kokkos set-up,
  parallel kernels, printing) is not part of this model: it is I/O and
  parallel dispatch.
- The xor-of-all-words loop that is commented out in both `digest_hash`
  overloads (include/map_helpers.hpp:68-72, 78-82) is not modelled,
  because it is not compiled. `digest_to_u32` computes the same fold.
- `KOKKOS_FORCEINLINE_FUNCTION` and `KOKKOS_IMPL_MAY_ALIAS` are not
  modelled. The union and pointer-cast type punning of `bitwise_equal`,
  `digest_to_u32`, `digest_hash` and `digest_equal_to` is modelled as
  explicit little-endian reads. Pointer alignment, including
  `alignas(16)` on `HashDigest`, is not modelled.
- The undefined or implementation-defined corners are modelled only by
  their effective values:
  - the signed `int` shifts of a tail byte by 24
    (include/kokkos_murmur3.hpp:169, 175, 181) are modelled by the 32-bit
    value they produce;
  - the wrapped unsigned block index of `MurmurHash3_x86_128`
    (lines 130-133) is modelled as arithmetic mod 2^64 in
    `Murmur3X86.X86_128BlockAddr`.
- Murmur3X86.MurmurHash3X86_32: `len` is an `int`, and the model requires
  the length below 2^31. Negative lengths are not modelled, because a
  buffer length cannot be negative.
- The other routines take `uint64_t len`, and the model requires the
  length below 2^64.
- Murmur3.Rotl32IsRotation and Murmur3.Rotl64KeepsLowHalf are stated
  only for the rotation amounts the routines use. The rotation
  round-trip of `rotl32` is proved for every amount, in
  `Murmur3.Rotl32Inverse`.
- `bitwise_equal` is a template over `T`. The model takes the two objects
  as their `sizeof(T)` bytes, so both sequences have one length.
- Statistical claims (avalanche, collision rarity) are not modelled: the
  code does not promise them.
