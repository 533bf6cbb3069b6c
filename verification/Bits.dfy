/** Bitwise arithmetic on natural numbers: the machine words of the kernel. */
module Bits {

  datatype Option<+T> = None | Some(value: T)

  predicate Distinct<T(==)>(s: seq<T>) {
    forall i, j :: 0 <= i < j < |s| ==> s[i] != s[j]
  }

  const TWO32 := 0x1_0000_0000
  const TWO64 := 0x1_0000_0000_0000_0000

  /** A 64-bit machine word. */
  type Word = w: nat | w < TWO64

  function Pow2(k: nat): (p: nat)
    ensures p > 0
  {
    if k == 0 then 1 else 2 * Pow2(k - 1)
  }

  /** Bit `k` of `a`: `(a >> k) & 1`. */
  predicate Bit(a: nat, k: nat) {
    if k == 0 then a % 2 == 1 else Bit(a / 2, k - 1)
  }

  /** `a | b` */
  function Or(a: nat, b: nat): nat {
    if a == 0 then b
    else if b == 0 then a
    else 2 * Or(a / 2, b / 2) + if a % 2 == 1 || b % 2 == 1 then 1 else 0
  }

  /** `a & b` */
  function And(a: nat, b: nat): nat {
    if a == 0 || b == 0 then 0
    else 2 * And(a / 2, b / 2) + if a % 2 == 1 && b % 2 == 1 then 1 else 0
  }

  /** `~a` in a word of `n` bits. */
  function Not(a: nat, n: nat): nat
    requires a < Pow2(n)
  {
    Pow2(n) - 1 - a
  }

  lemma WordHas64Bits()
    ensures Pow2(64) == TWO64
  {
    assert Pow2(8) == 0x100 && Pow2(16) == 0x1_0000;
    assert Pow2(24) == 0x100_0000 && Pow2(32) == TWO32;
    assert Pow2(40) == 0x100_0000_0000 && Pow2(48) == 0x1_0000_0000_0000;
    assert Pow2(56) == 0x100_0000_0000_0000;
  }

  lemma {:induction false} BitZero(k: nat)
    ensures !Bit(0, k)
  {
    if k > 0 { BitZero(k - 1); }
  }

  lemma {:induction false} BitOr(a: nat, b: nat, k: nat)
    ensures Bit(Or(a, b), k) <==> Bit(a, k) || Bit(b, k)
  {
    BitZero(k);
    if a > 0 && b > 0 && k > 0 {
      assert Or(a, b) / 2 == Or(a / 2, b / 2);
      BitOr(a / 2, b / 2, k - 1);
    }
  }

  lemma {:induction false} BitAnd(a: nat, b: nat, k: nat)
    ensures Bit(And(a, b), k) <==> Bit(a, k) && Bit(b, k)
  {
    BitZero(k);
    if a > 0 && b > 0 && k > 0 {
      assert And(a, b) / 2 == And(a / 2, b / 2);
      BitAnd(a / 2, b / 2, k - 1);
    }
  }

  lemma {:induction false} BitNot(a: nat, n: nat, k: nat)
    requires a < Pow2(n) && k < n
    ensures Bit(Not(a, n), k) <==> !Bit(a, k)
  {
    if k > 0 {
      assert Not(a, n) / 2 == Not(a / 2, n - 1);
      BitNot(a / 2, n - 1, k - 1);
    }
  }

  lemma {:induction false} BitPow2(n: nat, k: nat)
    ensures Bit(Pow2(n), k) <==> k == n
  {
    if n == 0 && k > 0 {
      BitZero(k - 1);
    } else if n > 0 && k > 0 {
      assert Pow2(n) / 2 == Pow2(n - 1);
      BitPow2(n - 1, k - 1);
    }
  }

  /** Two words with the same bits are the same word. */
  lemma {:induction false} BitsDetermine(a: nat, b: nat)
    requires forall k: nat :: Bit(a, k) <==> Bit(b, k)
    ensures a == b
  {
    assert Bit(a, 0) <==> Bit(b, 0);
    if a != 0 || b != 0 {
      forall k: nat ensures Bit(a / 2, k) <==> Bit(b / 2, k) {
        assert Bit(a, k + 1) <==> Bit(b, k + 1);
      }
      BitsDetermine(a / 2, b / 2);
    }
  }

  lemma {:induction false} Pow2Monotone(m: nat, n: nat)
    requires m <= n
    ensures Pow2(m) <= Pow2(n)
    ensures m < n ==> Pow2(m) < Pow2(n)
  {
    if m < n { Pow2Monotone(m, n - 1); }
  }

  lemma {:induction false} OrBound(a: nat, b: nat, n: nat)
    requires a < Pow2(n) && b < Pow2(n)
    ensures Or(a, b) < Pow2(n)
  {
    if a > 0 && b > 0 { OrBound(a / 2, b / 2, n - 1); }
  }

  lemma {:induction false} AndBound(a: nat, b: nat)
    ensures And(a, b) <= a
  {
    if a > 0 && b > 0 { AndBound(a / 2, b / 2); }
  }

  /** Joining fields that do not overlap is addition. */
  lemma {:induction false} OrDisjoint(a: nat, b: nat, k: nat)
    requires b < Pow2(k) && a % Pow2(k) == 0
    ensures Or(a, b) == a + b
  {
    if a > 0 && b > 0 {
      assert k > 0;
      HalfMultiple(a, k);
      OrDisjoint(a / 2, b / 2, k - 1);
    }
  }

  lemma HalfMultiple(a: nat, k: nat)
    requires k > 0 && a % Pow2(k) == 0
    ensures a % 2 == 0 && (a / 2) % Pow2(k - 1) == 0
  {
    var q, p := a / Pow2(k), Pow2(k - 1);
    assert a == (2 * p) * q;
    MulAssociates(p, q);
    assert a / 2 == p * q + 0;
    DivModUnique(a / 2, p, q, 0);
  }

  lemma MulAssociates(p: nat, q: nat)
    ensures (2 * p) * q == 2 * (p * q)
  {
  }

  /** `a >> k`, one place at a time. */
  function Shr(a: nat, k: nat): nat {
    if k == 0 then a else Shr(a / 2, k - 1)
  }

  /** A shift distributes over `|`. */
  lemma {:induction false} OrShr(a: nat, b: nat, k: nat)
    ensures Shr(Or(a, b), k) == Or(Shr(a, k), Shr(b, k))
  {
    if k > 0 {
      if a == 0 || b == 0 {
        assert Or(a / 2, b / 2) == Or(a, b) / 2;
      } else {
        assert Or(a, b) / 2 == Or(a / 2, b / 2);
      }
      OrShr(a / 2, b / 2, k - 1);
    }
  }

  lemma {:induction false} ShrDivides(a: nat, k: nat)
    ensures Shr(a, k) == a / Pow2(k)
  {
    if k > 0 {
      ShrDivides(a / 2, k - 1);
      DivTwice(a, k);
    }
  }

  lemma DivTwice(a: nat, k: nat)
    requires k > 0
    ensures a / Pow2(k) == (a / 2) / Pow2(k - 1)
  {
    var p, d := Pow2(k - 1), a / 2;
    var q, r := d / p, d % p;
    assert d == p * q + r;
    MulAssociates(p, q);
    DivModUnique(a, 2 * p, q, 2 * r + a % 2);
  }

  lemma DivModUnique(a: nat, d: nat, q: nat, r: nat)
    requires r < d && a == d * q + r
    ensures a / d == q && a % d == r
  {
    var q', r' := a / d, a % d;
    assert a == d * q' + r';
    if q < q' {
      MulGap(d, q, q');
    } else if q' < q {
      MulGap(d, q', q);
    }
  }

  lemma {:induction false} MulGap(d: nat, p: nat, q: nat)
    requires p < q
    ensures d * p + d <= d * q
  {
    assert d * q == d * (q - 1) + d;
    if p < q - 1 { MulGap(d, p, q - 1); }
  }

  // ---- splitting numbers into digits ----

  /** Dividing twice, and what is left over each time. */
  lemma SplitDigits(a: nat, c: nat, d: nat)
    requires c > 0 && d > 0 && c * d > 0
    ensures a / (c * d) == a / c / d
    ensures a % (c * d) == c * (a / c % d) + a % c
    ensures a % (c * d) / c == a / c % d
    ensures a % (c * d) % c == a % c
  {
    var n, r := a / c, a % c;
    var q, m := n / d, n % d;
    assert a == c * n + r;
    assert n == d * q + m;
    MulGap(c, m, d);
    Regroup(a, c, d, n, q, m, r);
    SplitAt(a, c, c * d, q, m, r);
  }

  lemma SplitAt(a: nat, c: nat, e: nat, q: nat, m: nat, r: nat)
    requires r < c && c * m + c <= e && a == e * q + (c * m + r)
    ensures a / e == q && a % e == c * m + r && a % e / c == m && a % e % c == r
  {
    DivModUnique(a, e, q, c * m + r);
    DivModUnique(c * m + r, c, m, r);
  }

  lemma Regroup(a: nat, c: nat, d: nat, n: nat, q: nat, m: nat, r: nat)
    requires n == d * q + m && a == c * n + r
    ensures a == (c * d) * q + (c * m + r)
  {
    assert c * n == c * (d * q) + c * m;
    assert c * (d * q) == (c * d) * q;
  }
}
