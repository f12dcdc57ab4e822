/** Bitwise or, and the bit helpers of src/iprange.h in its terms. */
module Bits {
  import opened Cidr

  /** Bitwise or of two unsigned numbers. */
  function Or(a: nat, b: nat): nat
    decreases a + b
  {
    if a == 0 && b == 0 then 0
    else 2 * Or(a / 2, b / 2) + if a % 2 == 1 || b % 2 == 1 then 1 else 0
  }

  lemma BitDown(x: nat, k: nat)
    requires k > 0
    ensures x / Pow2(k) == x / 2 / Pow2(k - 1)
  {
    HalfMod(x, Pow2(k - 1));
  }

  /** One turn: the low bit, and the rest. */
  lemma OrTurn(a: nat, b: nat)
    ensures Or(a, b) / 2 == Or(a / 2, b / 2) && (Or(a, b) % 2 == 1 <==> a % 2 == 1 || b % 2 == 1)
  {
  }

  /** Bit k of the result is set exactly when it is set in either number. */
  lemma {:induction false} OrBits(a: nat, b: nat, k: nat)
    ensures Or(a, b) / Pow2(k) % 2 == 1 <==> a / Pow2(k) % 2 == 1 || b / Pow2(k) % 2 == 1
    decreases k
  {
    OrTurn(a, b);
    if k > 0 {
      OrBits(a / 2, b / 2, k - 1);
      BitDown(Or(a, b), k);
      BitDown(a, k);
      BitDown(b, k);
    }
  }

  lemma {:induction false} OrZero(a: nat)
    ensures Or(a, 0) == a
  {
    if a > 0 {
      OrZero(a / 2);
    }
  }

  lemma HalfMod(a: nat, p: nat)
    requires p >= 1
    ensures a % (2 * p) == 2 * (a / 2 % p) + a % 2 && a / 2 / p == a / (2 * p)
  {
    var q, r := a / 2 / p, a / 2 % p;
    assert a == 2 * (p * q + r) + a % 2;
    assert a == (2 * p) * q + (2 * r + a % 2);
    Unique(a, 2 * p, q, 2 * r + a % 2);
  }

  lemma Unique(x: nat, s: nat, q: nat, r: nat)
    requires s >= 1 && x == s * q + r && r < s
    ensures x / s == q && x % s == r
  {
    var d := x / s;
    assert x == s * d + x % s;
    Steps(d, q, s);
    Steps(q, d, s);
  }

  /** Numbers with no bit in common add up. */
  lemma {:induction false} OrDisjoint(a: nat, b: nat, k: nat)
    requires a % Pow2(k) == 0 && b < Pow2(k)
    ensures Or(a, b) == a + b
  {
    if k == 0 {
      OrZero(a);
    } else {
      HalfMod(a, Pow2(k - 1));
      OrDisjoint(a / 2, b / 2, k - 1);
    }
  }

  lemma {:induction false} OrMask(a: nat, k: nat)
    ensures Or(a, Pow2(k) - 1) == a - a % Pow2(k) + (Pow2(k) - 1)
  {
    if k == 0 {
      OrZero(a);
    } else {
      HalfMod(a, Pow2(k - 1));
      OrMask(a / 2, k - 1);
      assert (Pow2(k) - 1) / 2 == Pow2(k - 1) - 1;
    }
  }

  lemma {:induction false} OrBit(a: nat, k: nat)
    ensures Or(a, Pow2(k)) == if a / Pow2(k) % 2 == 1 then a else a + Pow2(k)
  {
    if k == 0 {
      OrZero(a / 2);
    } else {
      HalfMod(a, Pow2(k - 1));
      OrBit(a / 2, k - 1);
    }
  }

  /** `addr | ~netmask(prefix)` is the last address of the block. */
  lemma BroadcastIsOr(w: nat, addr: nat, prefix: nat)
    requires prefix <= w
    ensures Broadcast(w, addr, prefix) == Or(addr, Span(w, prefix) - 1)
  {
    OrMask(addr, w - prefix);
  }

  /** `addr | (1 << (w - bit))` sets the bit. */
  lemma SetBitIsOr(w: nat, addr: nat, bit: nat)
    requires 1 <= bit <= w
    ensures SetBit(w, addr, bit) == Or(addr, Span(w, bit))
  {
    OrBit(addr, w - bit);
  }
}
