/**
  bitwise_equal (include/kokkos_murmur3.hpp lines 386-429): compares two
  objects of one type `T` byte for byte, reading them through a union as
  8-, 4-, 2- and 1-byte words.  An object is the sequence of its
  `sizeof(T)` bytes.
*/
module ByteCompare {
  import opened LittleEndian
  import opened Murmur3

  /** How the word counts of an object of `n8` bytes fit together: each
      narrower word, when it is compared, starts where the wider words
      stop, and the last one ends at byte `n8`. */
  lemma WordCounts(n8: nat)
    ensures var n16, n32, n64 := n8 / 2, n8 / 4, n8 / 8;
      8 * n64 + (if n64 * 2 < n32 then 4 else 0) == 4 * n32 &&
      4 * n32 + (if n32 * 2 < n16 then 2 else 0) == 2 * n16 &&
      2 * n16 + (if n16 * 2 < n8 then 1 else 0) == n8
  {
    var q, r := n8 / 8, n8 % 8;
    assert n8 == 8 * q + r;
    assert n8 / 4 == 2 * q + r / 4;
    assert n8 / 2 == 4 * q + r / 2;
  }

  /** The loop over the 8-byte words (lines 412-414): true exactly when the
      first 8 * (n8 / 8) bytes agree. */
  method Equal64(a: seq<bv8>, b: seq<bv8>) returns (result: bool)
    requires |a| == |b|
    ensures result <==> SamePrefix(a, b, 8 * (|a| / 8))
  {
    var num64 := |a| / 8;
    result := true;
    var i := 0;
    while i < num64
      invariant 0 <= i <= num64
      invariant result <==> SamePrefix(a, b, 8 * i)
    {
      Load64Injective(a, b, 8 * i);
      SamePrefixExtend(a, b, 8 * i, 8);
      result := result && GetBlock64(a, i) == GetBlock64(b, i);
      i := i + 1;
    }
  }

  /** Lines 416-418: the 4-byte word after the 8-byte words, compared
      when 2 * (n8 / 8) < n8 / 4; the agreeing prefix grows from
      8 * (n8 / 8) to 4 * (n8 / 4) bytes. */
  method Equal32Step(a: seq<bv8>, b: seq<bv8>, prev: bool) returns (result: bool)
    requires |a| == |b|
    requires prev <==> SamePrefix(a, b, 8 * (|a| / 8))
    ensures result <==> SamePrefix(a, b, 4 * (|a| / 4))
  {
    var num32, num64 := |a| / 4, |a| / 8;
    WordCounts(|a|);
    result := prev;
    if num64 * 2 < num32 {
      Load32Injective(a, b, 8 * num64);
      SamePrefixExtend(a, b, 8 * num64, 4);
      result := result && GetBlock32(a, num64 * 2) == GetBlock32(b, num64 * 2);
    }
  }

  /** Lines 420-422: the 2-byte word after those, compared when
      2 * (n8 / 4) < n8 / 2; the prefix grows to 2 * (n8 / 2) bytes. */
  method Equal16Step(a: seq<bv8>, b: seq<bv8>, prev: bool) returns (result: bool)
    requires |a| == |b|
    requires prev <==> SamePrefix(a, b, 4 * (|a| / 4))
    ensures result <==> SamePrefix(a, b, 2 * (|a| / 2))
  {
    var num16, num32 := |a| / 2, |a| / 4;
    WordCounts(|a|);
    result := prev;
    if num32 * 2 < num16 {
      Load16Injective(a, b, 4 * num32);
      SamePrefixExtend(a, b, 4 * num32, 2);
      result := result && Load16(a, 2 * (num32 * 2)) == Load16(b, 2 * (num32 * 2));
    }
  }

  /** Lines 424-426: the last byte, compared when the size is odd; the
      prefix grows to the whole object. */
  method Equal8Step(a: seq<bv8>, b: seq<bv8>, prev: bool) returns (result: bool)
    requires |a| == |b|
    requires prev <==> SamePrefix(a, b, 2 * (|a| / 2))
    ensures result <==> SamePrefix(a, b, |a|)
  {
    var num8, num16 := |a|, |a| / 2;
    WordCounts(|a|);
    result := prev;
    if num16 * 2 < num8 {
      SamePrefixExtend(a, b, 2 * num16, 1);
      result := result && a[num16 * 2] == b[num16 * 2];
    }
  }

  /** bitwise_equal: `result` is true exactly when the two objects have
      the same bytes.  With n8 = sizeof(T), the source compares
      n8 / 8 words of 8 bytes, then one word of 4 bytes, one of 2 bytes and
      one byte where they fit; between them these cover every byte
      exactly once. */
  method BitwiseEqual(a: seq<bv8>, b: seq<bv8>) returns (result: bool)
    requires |a| == |b|
    ensures result <==> a == b
  {
    result := Equal64(a, b);
    result := Equal32Step(a, b, result);
    result := Equal16Step(a, b, result);
    result := Equal8Step(a, b, result);
    assert a[.. |a|] == a && b[.. |b|] == b;
  }
}
