/** The bitmap helpers of kernel.h: one bit per page, 64 to a machine word. */
module Bitmap {
  import opened Bits

  /** bitmap_test */
  predicate Test(bm: seq<Word>, bit: nat)
    requires bit < 64 * |bm|
  {
    Bit(bm[bit / 64], bit % 64)
  }

  /** The first `n` bits as a sequence. */
  function View(bm: seq<Word>, n: nat): (bits: seq<bool>)
    requires n <= 64 * |bm|
    ensures |bits| == n
  {
    seq(n, j requires 0 <= j < n => Test(bm, j))
  }

  method Set(bm: array<Word>, bit: nat)
    requires bit < 64 * bm.Length
    modifies bm
    ensures forall j: nat :: j < 64 * bm.Length ==>
      (Test(bm[..], j) <==> j == bit || old(Test(bm[..], j)))
  {
    var w, k := bit / 64, bit % 64;
    WordHas64Bits();
    Pow2Monotone(k, 64);
    OrBound(bm[w], Pow2(k), 64);
    forall j: nat | j < 64 * bm.Length
      ensures j / 64 == w ==> (Bit(Or(bm[w], Pow2(k)), j % 64) <==> j == bit || Test(bm[..], j))
    {
      if j / 64 == w {
        BitOr(bm[w], Pow2(k), j % 64);
        BitPow2(k, j % 64);
      }
    }
    bm[w] := Or(bm[w], Pow2(k));
  }

  method Clear(bm: array<Word>, bit: nat)
    requires bit < 64 * bm.Length
    modifies bm
    ensures forall j: nat :: j < 64 * bm.Length ==>
      (Test(bm[..], j) <==> j != bit && old(Test(bm[..], j)))
  {
    var w, k := bit / 64, bit % 64;
    WordHas64Bits();
    Pow2Monotone(k, 64);
    var mask := Not(Pow2(k), 64);
    AndBound(bm[w], mask);
    forall j: nat | j < 64 * bm.Length
      ensures j / 64 == w ==> (Bit(And(bm[w], mask), j % 64) <==> j != bit && Test(bm[..], j))
    {
      if j / 64 == w {
        BitAnd(bm[w], mask, j % 64);
        BitNot(Pow2(k), 64, j % 64);
        BitPow2(k, j % 64);
      }
    }
    bm[w] := And(bm[w], mask);
  }

  /** memset(bm, 0xFF): every bit is set. */
  method Fill(bm: array<Word>)
    modifies bm
    ensures forall j: nat :: j < 64 * bm.Length ==> Test(bm[..], j)
  {
    WordHas64Bits();
    for i := 0 to bm.Length
      invariant forall w :: 0 <= w < i ==> bm[w] == Not(0, 64)
    {
      bm[i] := Not(0, 64);
    }
    forall j: nat | j < 64 * bm.Length ensures Test(bm[..], j) {
      BitNot(0, 64, j % 64);
      BitZero(j % 64);
    }
  }
}
