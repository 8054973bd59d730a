/** Unsigned bit arithmetic on unbounded integers, as far as nanopb uses it.
  * A shift is a multiplication or division by a power of two, and a C `|` is `Or`. */
module Bits {

  function Pow2(n: nat): (r: nat)
    ensures r > 0
  {
    if n == 0 then 1 else 2 * Pow2(n - 1)
  }

  lemma PowersGrow(m: nat, n: nat)
    requires m <= n
    ensures Pow2(m) <= Pow2(n) && (m < n ==> Pow2(m) < Pow2(n))
    decreases n
  {
    if m < n { PowersGrow(m, n - 1); }
  }

  /** Bitwise inclusive or. */
  function Or(a: nat, b: nat): nat
    decreases a + b
  {
    if a == 0 && b == 0 then 0
    else 2 * Or(a / 2, b / 2) + (if a % 2 == 1 || b % 2 == 1 then 1 else 0)
  }

  lemma {:induction false} OrZero(a: nat)
    ensures Or(a, 0) == a && Or(0, a) == a
  {
    if a != 0 {
      OrZero(a / 2);
    }
  }

  /** Oring in bits above everything already present adds them. */
  lemma {:induction false} OrDisjoint(a: nat, b: nat, k: nat)
    requires a < Pow2(k)
    ensures Or(a, b * Pow2(k)) == a + b * Pow2(k)
  {
    if k == 0 {
      OrZero(b);
    } else {
      var p := b * Pow2(k - 1);
      assert b * Pow2(k) == 2 * p;
      OrDisjoint(a / 2, b, k - 1);
      assert (2 * p) / 2 == p && (2 * p) % 2 == 0;
      if a == 0 && p == 0 {
      } else {
        assert Or(a, 2 * p) == 2 * Or(a / 2, p) + a % 2;
      }
    }
  }

  lemma {:induction false} OrBound(a: nat, b: nat, k: nat)
    requires a < Pow2(k) && b < Pow2(k)
    ensures Or(a, b) < Pow2(k)
  {
    if k != 0 && (a != 0 || b != 0) {
      OrBound(a / 2, b / 2, k - 1);
    }
  }

  lemma Powers()
    ensures Pow2(7) == 0x80 && Pow2(14) == 0x4000 && Pow2(21) == 0x20_0000 && Pow2(28) == 0x1000_0000
    ensures Pow2(31) == 0x8000_0000 && Pow2(32) == 0x1_0000_0000
    ensures Pow2(35) == 0x8_0000_0000 && Pow2(42) == 0x400_0000_0000 && Pow2(49) == 0x2_0000_0000_0000
    ensures Pow2(56) == 0x100_0000_0000_0000 && Pow2(63) == 0x8000_0000_0000_0000
    ensures Pow2(64) == 0x1_0000_0000_0000_0000
  {
    Doubling(0); Doubling(7); Doubling(14); Doubling(21);
    assert Pow2(28) == 0x1000_0000;
    Doubling(28); Doubling(35); Doubling(42);
    Doubling(49); Doubling(56);
    assert Pow2(64) == 2 * Pow2(63);
    assert Pow2(31) == 8 * Pow2(28) by {
      assert Pow2(31) == 2 * Pow2(30) && Pow2(30) == 2 * Pow2(29) && Pow2(29) == 2 * Pow2(28);
    }
    assert Pow2(32) == 2 * Pow2(31);
  }

  lemma Doubling(n: nat)
    ensures Pow2(n + 7) == 128 * Pow2(n)
  {
    assert Pow2(n + 7) == 2 * Pow2(n + 6) && Pow2(n + 6) == 2 * Pow2(n + 5) && Pow2(n + 5) == 2 * Pow2(n + 4);
    assert Pow2(n + 4) == 2 * Pow2(n + 3) && Pow2(n + 3) == 2 * Pow2(n + 2) && Pow2(n + 2) == 2 * Pow2(n + 1);
    assert Pow2(n + 1) == 2 * Pow2(n);
  }
}
