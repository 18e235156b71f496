/** The internet checksum of `calculate_checksum`: the 16-bit ones'
    complement of the ones'-complement sum of a run of 16-bit words
    (section 4.1 of RFC 1071). */
module Checksum {
  import opened Bytes

  /** The ones'-complement modulus: 2^16 is congruent to 1 modulo 0xFFFF,
      which is what makes the end-around carry a reduction. */
  const M: int := 0xFFFF

  /** The plain integer sum of the words, the `sum += *buf++` loop. With an
      `int` word count the sum stays below 2^47, so the 64-bit `unsigned long`
      accumulator never wraps and an unbounded `nat` is exact. */
  function RawSum(ws: seq<uint16>): nat
  {
    if |ws| == 0 then 0 else RawSum(ws[..|ws| - 1]) + ws[|ws| - 1]
  }

  /** Ones'-complement addition of two 16-bit words: a carry out of bit 15 is
      added back in at bit 0. */
  function OnesAdd(a: uint16, b: uint16): (r: uint16)
    ensures r == 0 <==> a == 0 && b == 0
    ensures a + b - r == if a + b > M then M else 0
  {
    if a + b > M then a + b - M else a + b
  }

  /** The ones'-complement sum of the words, added one at a time with
      end-around carry: the reference definition of RFC 1071. */
  function OnesSum(ws: seq<uint16>): uint16
  {
    if |ws| == 0 then 0 else OnesAdd(OnesSum(ws[..|ws| - 1]), ws[|ws| - 1])
  }

  /** A complete end-around-carry reduction of a non-negative sum: 0 stays 0,
      and any other sum goes to the value in [1, 0xFFFF] congruent to it
      modulo 0xFFFF. */
  function EndAround(s: nat): (r: uint16)
    ensures r == 0 <==> s == 0
    ensures s > 0 ==> (s - r) % M == 0
  {
    if s == 0 then 0 else (s - 1) % M + 1
  }

  /** The two carry-folding statements of `calculate_checksum`, as written:
      one fold of the high half into the low half, then one more add of
      whatever carry that produced. */
  function CFold(sum: nat): nat
  {
    var s1 := sum / 0x1_0000 + sum % 0x1_0000;
    s1 + s1 / 0x1_0000
  }

  /** `calculate_checksum(buf, nwords)` on the words `ws`: sum, fold twice,
      and return `~sum` truncated to 16 bits. When no more than 65536 words
      are summed the raw sum is below 2^32, the two folds are a complete
      reduction, and the result is the ones' complement of the
      ones'-complement sum. */
  function CalculateChecksum(ws: seq<uint16>): (r: uint16)
    ensures |ws| <= 0x1_0000 ==> r == M - OnesSum(ws)
    ensures |ws| == 0 ==> r == 0xFFFF
  {
    RawSumBound(ws);
    OnesSumIsEndAround(ws);
    CFoldIsEndAround(RawSum(ws));
    // ~sum flips every bit of the accumulator; only its low 16 bits survive
    // the conversion to the uint16_t return type.
    M - CFold(RawSum(ws)) % 0x1_0000
  }

  // ---------------------------------------------------------------------
  // Arithmetic of the end-around carry
  // ---------------------------------------------------------------------

  /** A value in [1, 0xFFFF] congruent to a positive sum is its reduction. */
  lemma EndAroundUnique(s: nat, x: int, k: int)
    requires s > 0 && 1 <= x <= M
    requires s - x == M * k
    ensures EndAround(s) == x
  {
    assert s - 1 == M * k + (x - 1);
  }

  /** The two folds of `calculate_checksum` are a full reduction exactly
      when the raw sum fits in 32 bits. */
  lemma CFoldIsEndAround(sum: nat)
    ensures sum < 0x1_0000_0000 ==> CFold(sum) % 0x1_0000 == EndAround(sum)
  {
    if sum < 0x1_0000_0000 {
      var q := sum / 0x1_0000;
      var s1 := q + sum % 0x1_0000;
      assert sum - s1 == M * q;
      assert s1 <= 2 * M;
      if sum == 0 {
      } else if s1 < 0x1_0000 {
        assert CFold(sum) == s1;
        EndAroundUnique(sum, s1, q);
      } else {
        assert CFold(sum) == s1 + 1;
        EndAroundUnique(sum, s1 - M, q + 1);
      }
    }
  }

  lemma RawSumBound(ws: seq<uint16>)
    ensures RawSum(ws) <= M * |ws|
  {
    if |ws| > 0 {
      RawSumBound(ws[..|ws| - 1]);
    }
  }

  /** Adding words one at a time with end-around carry reduces the plain sum:
      the ones'-complement sum is independent of when the carries are
      folded, which is what lets the C code defer them to the end. */
  lemma {:induction false} OnesSumIsEndAround(ws: seq<uint16>)
    ensures OnesSum(ws) == EndAround(RawSum(ws))
  {
    if |ws| > 0 {
      var init := ws[..|ws| - 1];
      var w := ws[|ws| - 1];
      OnesSumIsEndAround(init);
      var t := RawSum(init);
      var e := EndAround(t);
      var r := OnesAdd(e, w);
      if t + w > 0 {
        var c := if e + w > M then 1 else 0;
        if t == 0 {
          EndAroundUnique(t + w, r, 0);
        } else {
          assert (t - e) % M == 0;
          EndAroundUnique(t + w, r, (t - e) / M + c);
        }
      }
    }
  }

  lemma RawSumUpdate(ws: seq<uint16>, k: nat, v: uint16)
    requires k < |ws|
    ensures RawSum(ws[k := v]) == RawSum(ws) - ws[k] + v
  {
    var n := |ws| - 1;
    if k == n {
      assert ws[k := v][..n] == ws[..n];
    } else {
      RawSumUpdate(ws[..n], k, v);
      assert ws[k := v][..n] == ws[..n][k := v];
    }
  }

  lemma RawSumAppend(ws: seq<uint16>, w: uint16)
    ensures RawSum(ws + [w]) == RawSum(ws) + w
  {
    assert (ws + [w])[..|ws|] == ws;
  }

  /** The checksum of a sum: its ones' complement, with M - 0 = 0xFFFF. */
  lemma ChecksumOfSum(ws: seq<uint16>)
    requires |ws| <= 0x1_0000
    ensures CalculateChecksum(ws) == M - EndAround(RawSum(ws))
  {
    OnesSumIsEndAround(ws);
  }

  /** Adding a word's checksum to a sum that did not include it yields a sum
      whose reduction is 0xFFFF ("negative zero"), whose complement is 0. */
  lemma ComplementCancels(s: nat)
    ensures EndAround(s + (M - EndAround(s))) == M
  {
    var e := EndAround(s);
    if s == 0 {
      EndAroundUnique(M, M, 0);
    } else {
      assert (s - e) % M == 0;
      EndAroundUnique(s + M - e, M, (s - e) / M);
    }
  }

  // ---------------------------------------------------------------------
  // Properties of the checksum
  // ---------------------------------------------------------------------

  /** The two-pass discipline verifies: when word `k` was zero while the
      checksum was computed, storing the checksum there and recomputing
      over the same words gives 0. */
  lemma ChecksumVerifies(ws: seq<uint16>, k: nat)
    requires |ws| <= 0x1_0000 && k < |ws| && ws[k] == 0
    ensures CalculateChecksum(ws[k := CalculateChecksum(ws)]) == 0
  {
    var c := CalculateChecksum(ws);
    ChecksumOfSum(ws);
    RawSumUpdate(ws, k, c);
    ChecksumOfSum(ws[k := c]);
    ComplementCancels(RawSum(ws));
  }

  /** Appending the checksum of a run of words as one more word and
      recomputing gives 0. */
  lemma ChecksumAppendVerifies(ws: seq<uint16>)
    requires |ws| < 0x1_0000
    ensures CalculateChecksum(ws + [CalculateChecksum(ws)]) == 0
  {
    var c := CalculateChecksum(ws);
    ChecksumOfSum(ws);
    RawSumAppend(ws, c);
    ChecksumOfSum(ws + [c]);
    ComplementCancels(RawSum(ws));
  }

  /** Two different sums less than 0xFFFF apart reduce differently. */
  lemma EndAroundSeparates(s: nat, t: nat)
    requires s != t && -M < t - s < M
    ensures EndAround(s) != EndAround(t)
  {
    if s > 0 && t > 0 {
      var es: int, et: int := EndAround(s), EndAround(t);
      assert (s - es) % M == 0 && (t - et) % M == 0;
      assert et - es == (t - s) - M * ((t - et) / M - (s - es) / M);
    }
  }

  /** Changing one word changes the checksum, unless the change is between
      0x0000 and 0xFFFF, the two ones'-complement representations of zero. */
  lemma ChecksumDetectsWordChange(ws: seq<uint16>, k: nat, v: uint16)
    requires |ws| <= 0x1_0000 && k < |ws|
    requires v != ws[k] && {v, ws[k]} != {0, M}
    ensures CalculateChecksum(ws[k := v]) != CalculateChecksum(ws)
  {
    RawSumUpdate(ws, k, v);
    ChecksumOfSum(ws);
    ChecksumOfSum(ws[k := v]);
    assert -M < v - ws[k] < M;
    EndAroundSeparates(RawSum(ws), RawSum(ws[k := v]));
  }

  /** Changing one byte of an even-length buffer changes the checksum of its
      words: a single-byte change moves the sum by less than 0xFFFF. */
  lemma ChecksumDetectsByteChange(g: seq<byte>, j: nat, b: byte)
    requires |g| % 2 == 0 && |g| <= 2 * 0x1_0000
    requires j < |g| && b != g[j]
    ensures CalculateChecksum(WordsBE(g[j := b], |g| / 2)) != CalculateChecksum(WordsBE(g, |g| / 2))
  {
    var n := |g| / 2;
    var v := WordWithByte(g, j, b);
    WordsBEByteUpdate(g, n, j, b);
    var ws := WordsBE(g, n);
    assert v != ws[j / 2] && -M < v - ws[j / 2] < M;
    ChecksumDetectsWordChange(ws, j / 2, v);
  }

  // ---------------------------------------------------------------------
  // Byte-order independence (section 2(B) of RFC 1071)
  // ---------------------------------------------------------------------

  function Swapped(ws: seq<uint16>): (r: seq<uint16>)
    ensures |r| == |ws|
    ensures forall i :: 0 <= i < |ws| ==> r[i] == Swap16(ws[i])
  {
    seq(|ws|, i requires 0 <= i < |ws| => Swap16(ws[i]))
  }

  /** Sum of the high bytes of the words. */
  function HighSum(ws: seq<uint16>): nat
  {
    if |ws| == 0 then 0 else HighSum(ws[..|ws| - 1]) + ws[|ws| - 1] / 0x100
  }

  /** Swapping the bytes of a word multiplies it by 256 modulo 0xFFFF; summed
      over the words, with the multiple of 0xFFFF made explicit. */
  lemma {:induction false} SwappedSum(ws: seq<uint16>)
    ensures RawSum(Swapped(ws)) == 0x100 * RawSum(ws) - M * HighSum(ws)
    ensures RawSum(ws) == 0 <==> RawSum(Swapped(ws)) == 0
  {
    if |ws| > 0 {
      var n := |ws| - 1;
      assert Swapped(ws)[..n] == Swapped(ws[..n]);
      SwappedSum(ws[..n]);
    }
  }

  lemma SwapComplement(x: uint16)
    ensures Swap16(M - x) == M - Swap16(x)
  {
    var hi, lo := x / 0x100, x % 0x100;
    assert M - x == (0xFF - hi) * 0x100 + (0xFF - lo);
    assert (M - x) / 0x100 == 0xFF - hi && (M - x) % 0x100 == 0xFF - lo;
  }

  /** The ones'-complement sum is byte-order independent: summing the
      byte-swapped words gives the byte-swapped checksum. So the C code,
      which sums words in host order and stores the result in host order,
      puts the same two bytes on the wire on a little-endian host as on a
      big-endian one. */
  lemma {:induction false} HostOrderIndependent(ws: seq<uint16>)
    requires |ws| <= 0x1_0000
    ensures CalculateChecksum(Swapped(ws)) == Swap16(CalculateChecksum(ws))
  {
    var s := RawSum(ws);
    var t := RawSum(Swapped(ws));
    SwappedSum(ws);
    ChecksumOfSum(ws);
    ChecksumOfSum(Swapped(ws));
    var e := EndAround(s);
    if s > 0 {
      assert (s - e) % M == 0;
      var k := 0x100 * ((s - e) / M) - HighSum(ws) + e / 0x100;
      assert t - Swap16(e) == M * k;
      EndAroundUnique(t, Swap16(e), k);
    }
    SwapComplement(e);
  }

  /** What the C code computes over a byte buffer on a little-endian host,
      byte-swapped as it is when stored back, equals the checksum of the
      buffer's big-endian words. */
  lemma LittleEndianHost(s: seq<byte>, n: nat)
    requires 2 * n <= |s| && n <= 0x1_0000
    ensures Swap16(CalculateChecksum(WordsLE(s, n))) == CalculateChecksum(WordsBE(s, n))
  {
    var be := WordsBE(s, n);
    assert WordsLE(s, n) == Swapped(be);
    HostOrderIndependent(be);
    assert Swapped(Swapped(be)) == be;
    HostOrderIndependent(Swapped(be));
  }

  // ---------------------------------------------------------------------
  // A worked value
  // ---------------------------------------------------------------------

  /** The ten words of a 20-byte IPv4 header (192.168.0.1 to 192.168.0.199,
      UDP, checksum field zero): the raw sum 0x2479C folds to 0x479E, and its
      complement 0xB861 is the header's checksum. */
  lemma ChecksumOfSampleHeader()
    ensures CalculateChecksum([0x4500, 0x0073, 0x0000, 0x4000, 0x4011,
                               0x0000, 0xC0A8, 0x0001, 0xC0A8, 0x00C7]) == 0xB861
  {
    var ws: seq<uint16> := [0x4500, 0x0073, 0x0000, 0x4000, 0x4011, 0x0000, 0xC0A8, 0x0001, 0xC0A8, 0x00C7];
    assert RawSum(ws[..0]) == 0;
    assert RawSum(ws[..1]) == 0x4500;
    assert ws[..2][..1] == ws[..1];
    assert RawSum(ws[..2]) == 0x4573;
    assert ws[..3][..2] == ws[..2];
    assert RawSum(ws[..3]) == 0x4573;
    assert ws[..4][..3] == ws[..3];
    assert RawSum(ws[..4]) == 0x8573;
    assert ws[..5][..4] == ws[..4];
    assert RawSum(ws[..5]) == 0xC584;
    assert ws[..6][..5] == ws[..5];
    assert RawSum(ws[..6]) == 0xC584;
    assert ws[..7][..6] == ws[..6];
    assert RawSum(ws[..7]) == 0x1862C;
    assert ws[..8][..7] == ws[..7];
    assert RawSum(ws[..8]) == 0x1862D;
    assert ws[..9][..8] == ws[..8];
    assert RawSum(ws[..9]) == 0x246D5;
    assert ws[..10][..9] == ws[..9];
    assert RawSum(ws[..10]) == 0x2479C;
    assert ws[..10] == ws;
    assert CFold(0x2479C) == 0x479E;
  }
}
