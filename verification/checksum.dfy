/**
 * Fletcher-16 checksum as computed by PacketManager::ComputeChecksum.
 *
 * The source walks the bytes once, keeping two accumulators reduced modulo 255
 * after every byte. Sum1 and Sum2 follow that loop byte by byte (recursion on
 * the prefix, the last byte added last). Total and PrefixTotals are the
 * unreduced sums, an independent reference definition of the same checksum.
 */
module Checksum {

  /** Running sum of the bytes, reduced modulo 255 after each byte (`sum1`). */
  function Sum1(data: seq<bv8>): (r: nat)
    ensures r < 255
  {
    if data == [] then 0
    else (Sum1(data[..|data| - 1]) + data[|data| - 1] as int) % 255
  }

  /** Running sum of the successive `sum1` values, reduced modulo 255 (`sum2`). */
  function Sum2(data: seq<bv8>): (r: nat)
    ensures r < 255
  {
    if data == [] then 0
    else (Sum2(data[..|data| - 1]) + Sum1(data)) % 255
  }

  /**
   * The 16-bit checksum `(sum2 << 8) | sum1`. Since sum1 < 256 the bitwise or
   * is the sum `sum2 * 256 + sum1`; neither byte of the result can be 0xFF.
   */
  function Fletcher16(data: seq<bv8>): (c: nat)
    ensures c < 0x1_0000
    ensures c % 256 == Sum1(data) && c / 256 == Sum2(data)
    ensures c % 256 != 0xFF && c / 256 != 0xFF
  {
    Sum2(data) * 256 + Sum1(data)
  }

  /** Reference: plain sum of the byte values. */
  function Total(data: seq<bv8>): nat
  {
    if data == [] then 0 else Total(data[..|data| - 1]) + data[|data| - 1] as int
  }

  /** Reference: sum of Total over every non-empty prefix. */
  function PrefixTotals(data: seq<bv8>): nat
  {
    if data == [] then 0 else PrefixTotals(data[..|data| - 1]) + Total(data)
  }

  lemma ModAdd(a: int, b: int)
    ensures (a % 255 + b) % 255 == (a + b) % 255
  {
  }

  lemma ModCancel(x: int, p: int, q: int)
    requires (x + p) % 255 == (x + q) % 255
    ensures p % 255 == q % 255
  {
    var k1, k2 := (x + p) / 255, (x + q) / 255;
    assert x + p == 255 * k1 + (x + p) % 255;
    assert x + q == 255 * k2 + (x + q) % 255;
    assert p - q == 255 * (k1 - k2);
  }

  lemma AddMultiple(x: int, k: int)
    ensures (x + 255 * k) % 255 == x % 255
  {
  }

  /** The reduced running sum equals the unreduced sum reduced once. */
  lemma {:induction false} Sum1IsTotal(data: seq<bv8>)
    ensures Sum1(data) == Total(data) % 255
  {
    if data != [] {
      var init := data[..|data| - 1];
      Sum1IsTotal(init);
      ModAdd(Total(init), data[|data| - 1] as int);
    }
  }

  /** The reduced second sum equals the unreduced prefix sums reduced once. */
  lemma {:induction false} Sum2IsPrefixTotals(data: seq<bv8>)
    ensures Sum2(data) == PrefixTotals(data) % 255
  {
    if data != [] {
      var init := data[..|data| - 1];
      Sum2IsPrefixTotals(init);
      Sum1IsTotal(data);
      ModAdd(PrefixTotals(init), Sum1(data));
      ModAdd(Total(data), PrefixTotals(init));
    }
  }

  /** Changing one byte by d changes the plain sum by d. */
  lemma {:induction false} TotalDiffersAt(a: seq<bv8>, b: seq<bv8>, i: nat)
    requires |a| == |b| && i < |a|
    requires forall j :: 0 <= j < |a| && j != i ==> a[j] == b[j]
    ensures Total(a) - a[i] as int == Total(b) - b[i] as int
  {
    var n := |a| - 1;
    if n == i {
      assert a[..n] == b[..n];
    } else {
      TotalDiffersAt(a[..n], b[..n], i);
    }
  }

  /** Changing one byte from 0x00 to 0xFF adds 255 to each prefix sum that contains it. */
  lemma {:induction false} PrefixTotalsZeroToFF(a: seq<bv8>, b: seq<bv8>, i: nat)
    requires |a| == |b| && i < |a|
    requires forall j :: 0 <= j < |a| && j != i ==> a[j] == b[j]
    requires a[i] == 0x00 && b[i] == 0xFF
    ensures PrefixTotals(b) == PrefixTotals(a) + 255 * (|a| - i)
  {
    var n := |a| - 1;
    TotalDiffersAt(a, b, i);
    if n == i {
      assert a[..n] == b[..n];
    } else {
      PrefixTotalsZeroToFF(a[..n], b[..n], i);
    }
  }

  /**
   * Error detection: two byte strings that differ in exactly one position,
   * by an amount that is not a multiple of 255, have different checksums.
   */
  lemma DetectsSingleByteChange(a: seq<bv8>, b: seq<bv8>, i: nat)
    requires |a| == |b| && i < |a|
    requires forall j :: 0 <= j < |a| && j != i ==> a[j] == b[j]
    requires a[i] as int % 255 != b[i] as int % 255
    ensures Fletcher16(a) != Fletcher16(b)
  {
    TotalDiffersAt(a, b, i);
    Sum1IsTotal(a);
    Sum1IsTotal(b);
    var rest := Total(a) - a[i] as int;
    if Sum1(a) == Sum1(b) {
      ModCancel(rest, a[i] as int, b[i] as int);
    }
  }

  /**
   * Blind spot of the modulo-255 sums: replacing a 0x00 byte by 0xFF (or back)
   * leaves the checksum unchanged.
   */
  lemma ZeroAndFFCollide(a: seq<bv8>, b: seq<bv8>, i: nat)
    requires |a| == |b| && i < |a|
    requires forall j :: 0 <= j < |a| && j != i ==> a[j] == b[j]
    requires a[i] == 0x00 && b[i] == 0xFF
    ensures Fletcher16(a) == Fletcher16(b)
  {
    TotalDiffersAt(a, b, i);
    PrefixTotalsZeroToFF(a, b, i);
    Sum1IsTotal(a);
    Sum1IsTotal(b);
    Sum2IsPrefixTotals(a);
    Sum2IsPrefixTotals(b);
    AddMultiple(Total(a), 1);
    AddMultiple(PrefixTotals(a), |a| - i);
  }

  /**
   * The loop's `sum1` after its first k iterations over data. Sum1 of the
   * prefix is the same value (LoopSumsArePrefixSums); this index-based form
   * exists only so that the checksum of a literal frame can be evaluated step
   * by step.
   */
  function LoopSum1(data: seq<bv8>, k: nat): (r: nat)
    requires k <= |data|
    ensures r < 255
  {
    if k == 0 then 0 else (LoopSum1(data, k - 1) + data[k - 1] as int) % 255
  }

  /** The loop's `sum2` after its first k iterations over data; index-based like LoopSum1. */
  function LoopSum2(data: seq<bv8>, k: nat): (r: nat)
    requires k <= |data|
    ensures r < 255
  {
    if k == 0 then 0 else (LoopSum2(data, k - 1) + LoopSum1(data, k)) % 255
  }

  /** The accumulators after k iterations are the sums of the first k bytes. */
  lemma {:induction false} LoopSumsArePrefixSums(data: seq<bv8>, k: nat)
    requires k <= |data|
    ensures LoopSum1(data, k) == Sum1(data[..k]) && LoopSum2(data, k) == Sum2(data[..k])
  {
    if k > 0 {
      LoopSumsArePrefixSums(data, k - 1);
      assert data[..k][..k - 1] == data[..k - 1];
    }
  }
}
