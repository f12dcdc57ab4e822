/** The IPv6 bit helpers on two limbs (src/iprange6.h) do what the CIDR splitter needs of them. */
module Ipv6Bits {
  import opened Cidr
  import opened CidrMinimal
  import opened Bits
  import opened Uint128

  function OrU(a: U128, b: U128): U128 {
    U128(Or(a.hi, b.hi), Or(a.lo, b.lo))
  }

  function Not(a: U128): U128
    requires Ok(a)
  {
    U128(B - 1 - a.hi, B - 1 - a.lo)
  }

  const MAX: U128 := U128(B - 1, B - 1)
  const ONE: U128 := U128(0, 1)

  function Netmask6(prefix: nat): U128 {
    if prefix == 0 then U128(0, 0)
    else if prefix >= 128 then MAX
    else Shl(MAX, 128 - prefix)
  }

  function Broadcast6(a: U128, prefix: nat): U128
    requires Ok(Netmask6(prefix))
  {
    OrU(a, Not(Netmask6(prefix)))
  }

  function SetBit6(a: U128, bit: nat): U128
    requires 1 <= bit <= 128
  {
    OrU(a, Shl(ONE, 128 - bit))
  }

  // ----- masks

  /** The `k` low bits. */
  function Low(k: nat): U128
    requires k <= 128
  {
    if k <= 64 then U128(0, Pow2(k) - 1) else U128(Pow2(k - 64) - 1, B - 1)
  }

  lemma {:induction false} PowOrder(a: nat, b: nat)
    requires a <= b
    ensures Pow2(a) <= Pow2(b)
  {
    if a < b {
      PowOrder(a, b - 1);
    }
  }

  lemma LowIs(k: nat)
    requires k <= 128
    ensures Ok(Low(k)) && Value(Low(k)) == Pow2(k) - 1
  {
    hide Pow2;
    Powers();
    if k <= 64 {
      PowOrder(k, 64);
    } else {
      PowOrder(k - 64, 64);
      PowSum(64, k - 64);
    }
  }

  lemma MaxShifted(k: nat)
    requires k < 128
    ensures (Q - 1) * Pow2(k) % Q == Q - Pow2(k)
  {
    hide Pow2;
    Powers();
    PowOrder(k, 128);
    Distribute(Q - 1, 1, Pow2(k));
    assert (Q - 1) * Pow2(k) == Q * (Pow2(k) - 1) + (Q - Pow2(k));
    Unique((Q - 1) * Pow2(k), Q, Pow2(k) - 1, Q - Pow2(k));
  }

  /** The complement of the mask of a prefix is its host part. */
  lemma HostPart(prefix: nat)
    requires prefix <= 128
    ensures Ok(Netmask6(prefix)) && Not(Netmask6(prefix)) == Low(128 - prefix)
  {
    hide Pow2, Shl, Low;
    var k := 128 - prefix;
    Powers();
    LowIs(k);
    if 0 < prefix < 128 {
      ShlIs(MAX, k);
      MaxShifted(k);
      PowerZero();
      OneForm(Not(Netmask6(prefix)), Low(k));
    } else {
      PowerZero();
      OneForm(Not(Netmask6(prefix)), Low(k));
    }
  }

  lemma PowerZero()
    ensures Pow2(0) == 1
  {
  }

  lemma WideMod(hi: nat, lo: nat, k: nat)
    requires lo < B && k <= 64
    ensures (hi * B + lo) % Pow2(k) == lo % Pow2(k)
  {
    hide Pow2;
    ShiftSplit(k);
    var p, q := Pow2(k), Pow2(64 - k);
    Smaller(lo, p);
    Associate(p, q, hi);
    Distribute(q * hi, lo / p, p);
    Commute(hi, B);
    Unique(hi * B + lo, p, q * hi + lo / p, lo % p);
  }

  lemma TallMod(hi: nat, lo: nat, k: nat)
    requires lo < B && 64 <= k <= 128
    ensures (hi * B + lo) % Pow2(k) == hi % Pow2(k - 64) * B + lo
  {
    hide Pow2;
    Powers();
    PowSum(64, k - 64);
    var p := Pow2(k - 64);
    Smaller(hi, p);
    ShrHighSum(hi, lo, p, B, hi / p, hi % p);
    Unique(hi * B + lo, Pow2(k), hi / p, hi % p * B + lo);
  }

  /** The last address of an IPv6 block. */
  lemma Broadcast6Is(a: U128, prefix: nat)
    requires Ok(a) && prefix <= 128
    ensures Ok(Netmask6(prefix)) && Value(Broadcast6(a, prefix)) == Broadcast(128, Value(a), prefix)
  {
    hide Pow2, Or, Netmask6, Not, Broadcast;
    HostPart(prefix);
    LastAddress(a, 128 - prefix);
    BroadcastDef(Value(a), prefix);
  }

  lemma BroadcastDef(v: nat, prefix: nat)
    requires prefix <= 128
    ensures Broadcast(128, v, prefix) == v - v % Pow2(128 - prefix) + (Pow2(128 - prefix) - 1)
  {
  }

  lemma LastAddress(a: U128, k: nat)
    requires Ok(a) && k <= 128
    ensures Value(OrU(a, Low(k))) == Value(a) - Value(a) % Pow2(k) + (Pow2(k) - 1)
  {
    hide Pow2, Or;
    if k <= 64 {
      OrZero(a.hi);
      OrMask(a.lo, k);
      WideMod(a.hi, a.lo, k);
    } else {
      LastAddressHigh(a, k);
    }
  }

  lemma LastAddressHigh(a: U128, k: nat)
    requires Ok(a) && 64 < k <= 128
    ensures Value(OrU(a, Low(k))) == Value(a) - Value(a) % Pow2(k) + (Pow2(k) - 1)
  {
    hide Pow2, Or;
    Powers();
    OrMask(a.lo, 64);
    var p, m := Pow2(k - 64), a.hi % Pow2(k - 64);
    OrMask(a.hi, k - 64);
    TallMod(a.hi, a.lo, k);
    PowSum(64, k - 64);
    assert a.lo % B == a.lo;
    assert OrU(a, Low(k)) == U128(a.hi - m + (p - 1), B - 1);
  }

  // ----- one bit

  function Single(k: nat): U128
    requires k < 128
  {
    if k < 64 then U128(0, Pow2(k)) else U128(Pow2(k - 64), 0)
  }

  lemma SingleIs(k: nat)
    requires k < 128
    ensures Shl(ONE, k) == Single(k)
  {
    hide Pow2, Shl;
    Powers();
    ShlIs(ONE, k);
    PowNext(k);
    PowOrder(k + 1, 128);
    if k < 64 {
      PowNext(k);
      PowOrder(k + 1, 64);
    } else {
      PowNext(k - 64);
      PowOrder(k - 64 + 1, 64);
      PowSum(64, k - 64);
    }
    assert Value(ONE) * Pow2(k) == Pow2(k);
    OneForm(Shl(ONE, k), Single(k));
  }

  lemma PowNext(n: nat)
    ensures Pow2(n + 1) == 2 * Pow2(n)
  {
  }

  lemma LowBit(hi: nat, lo: nat, k: nat)
    requires lo < B && k < 64
    ensures (hi * B + lo) / Pow2(k) % 2 == lo / Pow2(k) % 2
  {
    hide Pow2;
    ShiftSplit(k);
    PowNext(63 - k);
    HighEven(hi, Pow2(k), Pow2(63 - k));
    BitOfSum(hi * B, lo, Pow2(k), Pow2(63 - k) * hi);
  }

  lemma BitOfSum(x: nat, lo: nat, p: nat, e: nat)
    requires p >= 1 && x == p * (2 * e)
    ensures (x + lo) / p % 2 == lo / p % 2
  {
    var q, r := lo / p, lo % p;
    Smaller(lo, p);
    Distribute(2 * e, q, p);
    Unique(x + lo, p, 2 * e + q, r);
    EvenPlus(e, q);
  }

  lemma HighEven(hi: nat, p: nat, q: nat)
    requires p * (2 * q) == B
    ensures hi * B == p * (2 * (q * hi))
  {
    Commute(hi, B);
    Associate(p, 2 * q, hi);
    Associate(2, q, hi);
  }

  lemma EvenPlus(x: nat, y: nat)
    ensures (2 * x + y) % 2 == y % 2
  {
  }

  lemma HighBit(hi: nat, lo: nat, k: nat)
    requires lo < B && 64 <= k < 128
    ensures (hi * B + lo) / Pow2(k) == hi / Pow2(k - 64)
  {
    hide Pow2;
    Powers();
    PowSum(64, k - 64);
    var p := Pow2(k - 64);
    Smaller(hi, p);
    ShrHighSum(hi, lo, p, B, hi / p, hi % p);
    Unique(hi * B + lo, Pow2(k), hi / p, hi % p * B + lo);
  }

  lemma SetBit6Is(a: U128, bit: nat)
    requires Ok(a) && 1 <= bit <= 128
    ensures Value(SetBit6(a, bit)) == SetBit(128, Value(a), bit)
  {
    hide Pow2, Or, Shl;
    var k := 128 - bit;
    SingleIs(k);
    Powers();
    if k < 64 {
      OrZero(a.hi);
      OrBit(a.lo, k);
      LowBit(a.hi, a.lo, k);
    } else {
      OrZero(a.lo);
      OrBit(a.hi, k - 64);
      HighBit(a.hi, a.lo, k);
      PowSum(64, k - 64);
    }
  }
}
