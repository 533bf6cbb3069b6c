/** The Internet checksum of RFC 1071, and the little-endian sums by which the stack computes it. */
module ChecksumSpec {
  import opened Bits
  import opened TcpSpec

  const ONES := 0xFFFF

  function LoadLE(lo: Byte, hi: Byte): nat {
    lo + 0x100 * hi
  }

  function LoadBE(hi: Byte, lo: Byte): nat {
    0x100 * hi + lo
  }

  /** The words of `data` as a little-endian machine loads them; an odd last byte counts alone. */
  function SumLE(data: seq<Byte>): nat {
    if data == [] then 0
    else if |data| == 1 then data[0]
    else LoadLE(data[0], data[1]) + SumLE(data[2..])
  }

  /** The words in network order; an odd last byte is padded with zero on the right. */
  function SumBE(data: seq<Byte>): nat {
    if data == [] then 0
    else if |data| == 1 then LoadBE(data[0], 0)
    else LoadBE(data[0], data[1]) + SumBE(data[2..])
  }

  /** The loop `while (sum >> 16) sum = (sum & 0xFFFF) + (sum >> 16)`. */
  function Fold(sum: nat): (r: nat)
    ensures r <= ONES
  {
    if sum <= ONES then sum else Fold(sum % 0x1_0000 + sum / 0x1_0000)
  }

  /** `(uint16_t)~sum` after folding. */
  function Checksum(data: seq<Byte>): (r: nat)
    ensures r <= ONES
  {
    ONES - Fold(SumLE(data))
  }

  /** Section 1 of RFC 1071: the complement of the one's complement sum of the network-order words. */
  function InternetChecksum(data: seq<Byte>): (r: nat)
    ensures r <= ONES
  {
    ONES - OnesSum(SumBE(data))
  }

  /** The one's complement sum as a residue: zero only for zero, otherwise 1 to 0xFFFF modulo 0xFFFF. */
  function OnesSum(sum: nat): (r: nat)
    ensures r <= ONES
  {
    if sum == 0 then 0 else if sum % ONES == 0 then ONES else sum % ONES
  }

  function Swap16(x: nat): nat
    requires x <= ONES
  {
    x % 0x100 * 0x100 + x / 0x100
  }

  // ---- folding ----

  /** Folding computes the residue modulo 0xFFFF, with 0xFFFF rather than 0 for nonzero sums. */
  lemma {:induction false} FoldIsOnesSum(sum: nat)
    ensures Fold(sum) == OnesSum(sum)
  {
    if sum > ONES {
      var next := sum % 0x1_0000 + sum / 0x1_0000;
      assert sum == next + ONES * (sum / 0x1_0000);
      SameResidue(next, sum / 0x1_0000);
      FoldIsOnesSum(next);
    }
  }

  lemma SameResidue(a: nat, k: nat)
    ensures (a + ONES * k) % ONES == a % ONES
  {
  }

  /** A sum is its one's complement sum plus a multiple of 0xFFFF. */
  lemma OnesSumSplit(sum: nat) returns (q: nat)
    ensures sum == OnesSum(sum) + ONES * q
    ensures sum > 0 ==> OnesSum(sum) > 0
  {
    q := (sum - OnesSum(sum)) / ONES;
  }

  /** And the only number from 1 to 0xFFFF of which that is true. */
  lemma OnesSumUnique(sum: nat, r: nat, q: nat)
    requires sum == r + ONES * q && 0 < r <= ONES
    ensures OnesSum(sum) == r
  {
    SameResidue(r, q);
  }

  // ---- byte order ----

  lemma SwapIsTimes256(x: nat)
    requires x <= ONES
    ensures Swap16(x) <= ONES
    ensures 0x100 * x == Swap16(x) + ONES * (x / 0x100)
    ensures Swap16(x) == 0 <==> x == 0
  {
  }

  lemma SwapIsInvolution(x: nat)
    requires x <= ONES
    ensures Swap16(x) <= ONES && Swap16(Swap16(x)) == x && Swap16(ONES - x) == ONES - Swap16(x)
  {
    var hi, lo := x / 0x100, x % 0x100;
    assert Swap16(x) / 0x100 == lo && Swap16(x) % 0x100 == hi;
    assert (ONES - x) / 0x100 == 0xFF - hi && (ONES - x) % 0x100 == 0xFF - lo;
  }

  /** Word by word, the little-endian sum is 256 times the network-order sum, less a multiple of 0xFFFF. */
  lemma {:induction false} SumsDifferByASwap(data: seq<Byte>) returns (k: nat)
    ensures 0x100 * SumBE(data) == SumLE(data) + ONES * k
    ensures SumLE(data) == 0 <==> SumBE(data) == 0
  {
    if data == [] {
      k := 0;
    } else if |data| == 1 {
      k := data[0];
    } else {
      k := SumsDifferByASwap(data[2..]);
      k := k + data[0];
    }
  }

  /** So their one's complement sums are byte swaps of each other. */
  lemma OnesSumSwaps(big: nat, little: nat, k: nat)
    requires 0x100 * big == little + ONES * k && (little == 0 <==> big == 0)
    ensures OnesSum(little) == Swap16(OnesSum(big))
  {
    if big > 0 {
      var r := OnesSum(big);
      var q := OnesSumSplit(big);
      SwapIsTimes256(r);
      var n := 0x100 * q + r / 0x100;
      assert little + ONES * k == Swap16(r) + ONES * n;
      var m := OnesSumSplit(little);
      OnesSumUnique(little + ONES * k, Swap16(r), n);
      OnesSumUnique(little + ONES * k, OnesSum(little), m + k);
    }
  }

  /**
   * Byte-order independence, section 2(B) of RFC 1071: the little-endian sum, folded and stored
   * without a swap, is the network-order checksum, for every length and every content.
   */
  lemma StoredChecksumIsInternetChecksum(data: seq<Byte>)
    ensures Swap16(Checksum(data)) == InternetChecksum(data)
  {
    FoldIsOnesSum(SumLE(data));
    var k := SumsDifferByASwap(data);
    OnesSumSwaps(SumBE(data), SumLE(data), k);
    SwapIsInvolution(OnesSum(SumBE(data)));
    SwapIsInvolution(Checksum(data));
  }

  // ---- parts ----

  /** Pieces of even length can be summed one after the other. */
  lemma {:induction false} SumLEConcat(a: seq<Byte>, b: seq<Byte>)
    requires |a| % 2 == 0
    ensures SumLE(a + b) == SumLE(a) + SumLE(b)
  {
    if a == [] {
      assert a + b == b;
    } else {
      assert (a + b)[2..] == a[2..] + b;
      SumLEConcat(a[2..], b);
    }
  }

  /** `n` words sum to at most `n * 0xFFFF`. */
  lemma {:induction false} SumLEBound(data: seq<Byte>)
    ensures SumLE(data) <= (|data| + 1) / 2 * ONES
    ensures |data| % 2 == 1 ==> SumLE(data) <= |data| / 2 * ONES + 0xFF
  {
    if |data| >= 2 { SumLEBound(data[2..]); }
  }

  // ---- verification and detection ----

  predicate WordAt(data: seq<Byte>, k: nat) {
    k % 2 == 0 && k + 1 < |data|
  }

  function SetWord(data: seq<Byte>, k: nat, w: nat): (r: seq<Byte>)
    requires WordAt(data, k) && w <= ONES
    ensures |r| == |data|
  {
    data[k := w % 0x100][k + 1 := w / 0x100]
  }

  function GetWord(data: seq<Byte>, k: nat): nat
    requires WordAt(data, k)
  {
    LoadLE(data[k], data[k + 1])
  }

  lemma {:induction false} SumLEWithWord(data: seq<Byte>, k: nat, w: nat)
    requires WordAt(data, k) && w <= ONES
    ensures SumLE(SetWord(data, k, w)) + GetWord(data, k) == SumLE(data) + w
    decreases k
  {
    if k == 0 {
      assert SetWord(data, 0, w)[2..] == data[2..];
    } else {
      assert SetWord(data, k, w)[2..] == SetWord(data[2..], k - 2, w);
      SumLEWithWord(data[2..], k - 2, w);
    }
  }

  /** The receiver's test: the sum over the packet with its checksum in place comes to 0xFFFF. */
  predicate Verifies(data: seq<Byte>) {
    Checksum(data) == 0
  }

  /** A packet whose checksum was computed over a zeroed field and stored there always verifies. */
  lemma StoredChecksumVerifies(data: seq<Byte>, k: nat)
    requires WordAt(data, k) && GetWord(data, k) == 0
    ensures Verifies(SetWord(data, k, Checksum(data)))
  {
    var sum, c := SumLE(data), Checksum(data);
    SumLEWithWord(data, k, c);
    FoldIsOnesSum(sum);
    FoldIsOnesSum(sum + c);
    var q := OnesSumSplit(sum);
    OnesSumUnique(sum + c, ONES, q);
  }

  /** The sum of a packet that verifies is a nonzero multiple of 0xFFFF, and conversely. */
  lemma VerifiesMeansMultiple(data: seq<Byte>)
    ensures Verifies(data) <==> SumLE(data) > 0 && SumLE(data) % ONES == 0
  {
    FoldIsOnesSum(SumLE(data));
  }

  /**
   * Replacing one aligned word of a packet that verifies goes unnoticed exactly when the word does
   * not change, or turns from 0x0000 into 0xFFFF, or from 0xFFFF into 0x0000 with a nonzero rest.
   */
  lemma SingleWordErrors(data: seq<Byte>, k: nat, w: nat)
    requires WordAt(data, k) && w <= ONES && Verifies(data)
    ensures Verifies(SetWord(data, k, w)) <==>
      || w == GetWord(data, k)
      || (GetWord(data, k) == 0 && w == ONES)
      || (GetWord(data, k) == ONES && w == 0 && SumLE(data) > ONES)
  {
    var sum, sum', old_w := SumLE(data), SumLE(SetWord(data, k, w)), GetWord(data, k);
    SumLEWithWord(data, k, w);
    VerifiesMeansMultiple(data);
    VerifiesMeansMultiple(SetWord(data, k, w));
    ResidueShift(sum, sum', old_w, w);
  }

  lemma ResidueShift(sum: nat, sum': nat, a: nat, b: nat)
    requires sum' + a == sum + b && sum % ONES == 0 && a <= ONES && b <= ONES
    ensures sum' % ONES == 0 <==> a == b || (a == 0 && b == ONES) || (a == ONES && b == 0)
  {
    if sum' % ONES == 0 {
      var p, q := sum / ONES, sum' / ONES;
      assert ONES * q + a == ONES * p + b;
      if p < q { assert b - a == ONES * (q - p); } else if q < p { assert a - b == ONES * (p - q); }
    }
  }
}
