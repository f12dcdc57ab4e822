/**
 128-bit arithmetic on two 64-bit limbs (src/uint128.h, the path without a native type).
 */
module Uint128 {
  import opened Cidr
  import opened CidrMinimal
  import opened Bits

  /** 2^32, 2^64 and 2^128. */
  const H: nat := 0x1_0000_0000
  const B: nat := 0x1_0000_0000_0000_0000
  const Q: nat := 0x1_0000_0000_0000_0000_0000_0000_0000_0000

  datatype U128 = U128(hi: nat, lo: nat)

  predicate Ok(a: U128) {
    a.hi < B && a.lo < B
  }

  function Value(a: U128): nat {
    a.hi * B + a.lo
  }

  lemma Range(a: U128)
    requires Ok(a)
    ensures Value(a) < Q
  {
  }

  /** Two limbs hold each value in one way. */
  lemma OneForm(a: U128, b: U128)
    requires Ok(a) && Ok(b) && Value(a) == Value(b)
    ensures a == b
  {
  }

  lemma PowerOfFour()
    ensures Pow2(4) == 16
  {
  }

  lemma Powers()
    ensures Pow2(32) == H && Pow2(64) == B && Pow2(128) == Q
  {
    hide Pow2;
    PowerOfFour();
    PowSum(4, 4);
    PowSum(8, 8);
    PowSum(16, 16);
    PowSum(32, 32);
    PowSum(64, 64);
  }

  // ----- addition and subtraction

  function Bit(b: bool): nat {
    if b then 1 else 0
  }

  function Add(a: U128, b: U128): U128 {
    var lo := (a.lo + b.lo) % B;
    U128((a.hi + b.hi + Bit(lo < a.lo)) % B, lo)
  }

  function Sub(a: U128, b: U128): U128 {
    U128((a.hi - b.hi - Bit(a.lo < b.lo)) % B, (a.lo - b.lo) % B)
  }

  function Lt(a: U128, b: U128): bool {
    a.hi < b.hi || (a.hi == b.hi && a.lo < b.lo)
  }

  lemma LtIs(a: U128, b: U128)
    requires Ok(a) && Ok(b)
    ensures Lt(a, b) <==> Value(a) < Value(b)
  {
  }

  lemma AddIs(a: U128, b: U128)
    requires Ok(a) && Ok(b)
    ensures Ok(Add(a, b)) && Value(Add(a, b)) == (Value(a) + Value(b)) % Q
  {
    Range(a);
    Range(b);
    var r, x := Add(a, b), Value(a) + Value(b);
    assert r.lo == if a.lo + b.lo < B then a.lo + b.lo else a.lo + b.lo - B;
    var c := Bit(r.lo < a.lo);
    assert r.hi == if a.hi + b.hi + c < B then a.hi + b.hi + c else a.hi + b.hi + c - B;
    assert x % Q == if x < Q then x else x - Q;
  }

  lemma SubIs(a: U128, b: U128)
    requires Ok(a) && Ok(b)
    ensures Ok(Sub(a, b)) && Value(Sub(a, b)) == (Value(a) - Value(b)) % Q
  {
    Range(a);
    Range(b);
    var r, x := Sub(a, b), Value(a) - Value(b);
    assert r.lo == if a.lo >= b.lo then a.lo - b.lo else a.lo - b.lo + B;
    var c := Bit(a.lo < b.lo);
    assert r.hi == if a.hi - b.hi - c >= 0 then a.hi - b.hi - c else a.hi - b.hi - c + B;
    assert x % Q == if x >= 0 then x else x + Q;
  }

  // ----- shifts

  function Shl64(a: nat, n: nat): nat {
    a * Pow2(n) % B
  }

  function Over(a: nat, p: nat): nat
    requires p >= 1
  {
    a / p
  }

  function Shr64(a: nat, n: nat): nat {
    Over(a, Pow2(n))
  }

  function Shl(a: U128, n: nat): U128 {
    if n == 0 then a
    else if n >= 128 then U128(0, 0)
    else if n >= 64 then U128(Shl64(a.lo, n - 64), 0)
    else U128(Or(Shl64(a.hi, n), Shr64(a.lo, 64 - n)), Shl64(a.lo, n))
  }

  function Shr(a: U128, n: nat): U128 {
    if n == 0 then a
    else if n >= 128 then U128(0, 0)
    else if n >= 64 then U128(0, Shr64(a.hi, n - 64))
    else U128(Shr64(a.hi, n), Or(Shr64(a.lo, n), Shl64(a.hi, 64 - n)))
  }

  lemma ShiftSplit(n: nat)
    requires n <= 64
    ensures Pow2(n) * Pow2(64 - n) == B
  {
    Powers();
    PowSum(n, 64 - n);
  }

  /** Shifting left within a limb keeps the low part of the operand. */
  lemma Shl64Is(a: nat, n: nat)
    requires a < B && n <= 64
    ensures Shl64(a, n) == Pow2(n) * (a % Pow2(64 - n)) && a * Pow2(n) == B * (a / Pow2(64 - n)) + Shl64(a, n)
    ensures a / Pow2(64 - n) < Pow2(n)
  {
    ShiftSplit(n);
    ScaledMod(a, Pow2(n), Pow2(64 - n), B);
  }

  lemma Distribute(a: nat, b: nat, c: nat)
    ensures (a + b) * c == a * c + b * c && c * (a + b) == c * a + c * b
  {
  }

  lemma Associate(a: nat, b: nat, c: nat)
    ensures a * b * c == a * (b * c) && a * b * c == b * (a * c)
  {
  }

  lemma ScaledMod(a: nat, p: nat, q: nat, m: nat)
    requires p >= 1 && q >= 1 && p * q == m && a < m
    ensures a * p % m == p * (a % q) && a * p == m * (a / q) + p * (a % q) && a / q < p
  {
    var x, y := a / q, a % q;
    assert a == q * x + y;
    ScaledSplit(a, p, q, x, y);
    assert p * y < m by { Steps(y, q, p); }
    Unique(a * p, m, x, p * y);
    Steps(p, x, q);
    Commute(p, q);
    assert q * x <= a;
    if x >= p {
      Steps(p - 1, x, q);
      Steps(p - 1, p, q);
      AtLeast(p, x, q);
    }
  }

  lemma AtLeast(a: nat, b: nat, s: nat)
    requires a <= b
    ensures s * a <= s * b
  {
  }

  lemma Commute(a: nat, b: nat)
    ensures a * b == b * a
  {
  }

  lemma ScaledSplit(a: nat, p: nat, q: nat, x: nat, y: nat)
    requires a == q * x + y
    ensures a * p == p * q * x + p * y
  {
    Distribute(q * x, y, p);
    Associate(p, q, x);
    Commute(q * x, p);
  }

  lemma Multiple(p: nat, y: nat)
    requires p >= 1
    ensures p * y % p == 0
  {
    Quotient(p * y, y, p);
  }

  lemma ShlIs(a: U128, n: nat)
    requires Ok(a)
    ensures Ok(Shl(a, n)) && Value(Shl(a, n)) == Value(a) * Pow2(n) % Q
  {
    Range(a);
    if n == 0 {
      assert Value(a) * Pow2(0) == Value(a);
    } else if n >= 128 {
      ShlOut(Value(a), n);
    } else if n >= 64 {
      ShlHigh(a, n);
    } else {
      ShlLow(a, n);
    }
  }

  lemma ShlOut(v: nat, n: nat)
    requires n >= 128
    ensures v * Pow2(n) % Q == 0
  {
    hide Pow2;
    Powers();
    PowSum(128, n - 128);
    Associate(v, Q, Pow2(n - 128));
    Multiple(Q, v * Pow2(n - 128));
  }

  lemma ShlHighSum(hi: nat, lo: nat, p: nat, b: nat, c: nat, r: nat)
    requires lo * p == b * c + r && r < b
    ensures (hi * b + lo) * (b * p) == (b * b) * (hi * p + c) + b * r && b * r < b * b
  {
    Distribute(hi * b, lo, b * p);
    assert hi * b * (b * p) == (b * b) * (hi * p) by { Associate(hi, b, b * p); Associate(b, b, hi * p); Associate(b, hi, p); Associate(hi, b, p); }
    assert lo * (b * p) == b * (lo * p) by { Associate(lo, b, p); }
    Distribute(b * c, r, b);
    Associate(b, b, c);
    Distribute(hi * p, c, b * b);
    Steps(r, b, b);
  }

  lemma ShlHighValue(hi: nat, lo: nat, n: nat)
    requires lo < B && 64 <= n < 128
    ensures (hi * B + lo) * Pow2(n) % Q == B * Shl64(lo, n - 64)
  {
    hide Pow2, Shl64;
    Powers();
    PowSum(64, n - 64);
    Shl64Is(lo, n - 64);
    Below(lo, n - 64);
    var p, c, r := Pow2(n - 64), lo / Pow2(128 - n), Shl64(lo, n - 64);
    ShlHighSum(hi, lo, p, B, c, r);
    Unique((hi * B + lo) * Pow2(n), Q, hi * p + c, B * r);
  }

  lemma ShlHigh(a: U128, n: nat)
    requires Ok(a) && 64 <= n < 128
    ensures Ok(Shl(a, n)) && Value(Shl(a, n)) == Value(a) * Pow2(n) % Q
  {
    hide Pow2, Or, Shl64;
    Below(a.lo, n - 64);
    ShlHighValue(a.hi, a.lo, n);
  }

  lemma ShlLowSum(hi: nat, lo: nat, p: nat, b: nat, c: nat, h: nat, x: nat, l: nat)
    requires hi * p == b * c + h && lo * p == b * x + l
    ensures (hi * b + lo) * p == (b * b) * c + ((h + x) * b + l)
  {
    Distribute(hi * b, lo, p);
    assert hi * b * p == b * (hi * p) by { Associate(hi, b, p); Associate(b, hi, p); }
    Distribute(b * c, h, b);
    Associate(b, b, c);
    Distribute(h, x, b);
  }

  lemma ShlLowValue(hi: nat, lo: nat, n: nat)
    requires hi < B && lo < B && 0 < n < 64
    ensures Or(Shl64(hi, n), Shr64(lo, 64 - n)) == Shl64(hi, n) + Shr64(lo, 64 - n) < B
    ensures (hi * B + lo) * Pow2(n) % Q == (Shl64(hi, n) + Shr64(lo, 64 - n)) * B + Shl64(lo, n)
  {
    hide Pow2, Or, Shl64, Shr64;
    Carried(hi, n);
    Carried(lo, n);
    var h, x, l := Shl64(hi, n), Shr64(lo, 64 - n), Shl64(lo, n);
    OrDisjoint(h, x, n);
    Joined(h, x, n);
    ShlLowFinal(hi, lo, Pow2(n), Shr64(hi, 64 - n), h, x, l);
  }

  /** A limb shifted left, and what falls out of it. */
  lemma Carried(a: nat, n: nat)
    requires a < B && n <= 64
    ensures a * Pow2(n) == B * Shr64(a, 64 - n) + Shl64(a, n)
    ensures Shl64(a, n) % Pow2(n) == 0 && Shl64(a, n) < B && Shr64(a, 64 - n) < Pow2(n)
  {
    hide Pow2, Shl64;
    Shl64Is(a, n);
    Below(a, n);
    Multiple(Pow2(n), a % Pow2(64 - n));
  }

  lemma ShlLowFinal(hi: nat, lo: nat, p: nat, c: nat, h: nat, x: nat, l: nat)
    requires hi * p == B * c + h && lo * p == B * x + l && h + x < B && l < B
    ensures (hi * B + lo) * p % Q == (h + x) * B + l
  {
    ShlLowSum(hi, lo, p, B, c, h, x, l);
    Unique((hi * B + lo) * p, Q, c, (h + x) * B + l);
  }

  lemma ShlLow(a: U128, n: nat)
    requires Ok(a) && 0 < n < 64
    ensures Ok(Shl(a, n)) && Value(Shl(a, n)) == Value(a) * Pow2(n) % Q
  {
    hide Pow2, Or, Shl64, Shr64;
    Below(a.lo, n);
    ShlLowValue(a.hi, a.lo, n);
  }

  lemma Below(a: nat, n: nat)
    ensures Shl64(a, n) < B
  {
  }

  /** A limb whose low `n` bits are clear has room for `n` more. */
  lemma Joined(hi: nat, x: nat, n: nat)
    requires n <= 64 && hi < B && hi % Pow2(n) == 0 && x < Pow2(n)
    ensures hi + x < B
  {
    hide Pow2;
    ShiftSplit(n);
    Multiple(Pow2(n), Pow2(64 - n));
    NextMultiple(hi, B, Pow2(n));
  }

  lemma ShrIs(a: U128, n: nat)
    requires Ok(a)
    ensures Ok(Shr(a, n)) && Value(Shr(a, n)) == Value(a) / Pow2(n)
  {
    Range(a);
    if n == 0 {
      assert Value(a) / 1 == Value(a);
    } else if n >= 128 {
      ShrOut(Value(a), n);
    } else if n >= 64 {
      ShrHigh(a, n);
    } else {
      ShrLow(a, n);
    }
  }

  lemma ShrOut(v: nat, n: nat)
    requires n >= 128 && v < Q
    ensures v / Pow2(n) == 0
  {
    hide Pow2;
    Powers();
    PowSum(128, n - 128);
    AtLeast(1, Pow2(n - 128), Q);
    Unique(v, Pow2(n), 0, v);
  }

  lemma ShrHighSum(hi: nat, lo: nat, p: nat, b: nat, q: nat, r: nat)
    requires hi == p * q + r && r < p && lo < b
    ensures hi * b + lo == (b * p) * q + (r * b + lo) && r * b + lo < b * p
  {
    Distribute(p * q, r, b);
    Associate(b, p, q);
    Commute(b, p * q);
    Steps(r, p, b);
  }

  lemma ShrHighValue(hi: nat, lo: nat, n: nat)
    requires hi < B && lo < B && 64 <= n < 128
    ensures (hi * B + lo) / Pow2(n) == hi / Pow2(n - 64) < B
  {
    hide Pow2;
    Powers();
    PowSum(64, n - 64);
    var p := Pow2(n - 64);
    var q, r := hi / p, hi % p;
    Smaller(hi, p);
    ShrHighSum(hi, lo, p, B, q, r);
    Unique(hi * B + lo, Pow2(n), q, r * B + lo);
  }

  lemma ShrHigh(a: U128, n: nat)
    requires Ok(a) && 64 <= n < 128
    ensures Ok(Shr(a, n)) && Value(Shr(a, n)) == Value(a) / Pow2(n)
  {
    hide Pow2, Or;
    ShrHighValue(a.hi, a.lo, n);
  }

  lemma Smaller(x: nat, p: nat)
    requires p >= 1
    ensures x / p <= x && x == p * (x / p) + x % p
  {
    var q := x / p;
    assert x == p * q + x % p;
    AtLeast(1, p, q);
    Commute(p, q);
  }

  lemma ShrLowSum(hi: nat, lo: nat, p: nat, q: nat, b: nat, x: nat, y: nat, z: nat, m: nat)
    requires p * q == b && hi == p * x + y && lo == p * z + m
    ensures hi * b + lo == p * (x * b + q * y + z) + m
  {
    Distribute(p * x, y, b);
    Associate(p, x, b);
    Associate(p, q, y);
    Commute(y, b);
    Distribute(x * b, q * y, p);
    Distribute(x * b + q * y, z, p);
  }

  lemma ShrLowValue(hi: nat, lo: nat, n: nat)
    requires hi < B && lo < B && 0 < n < 64
    ensures Shr64(hi, n) < B && Or(Shr64(lo, n), Shl64(hi, 64 - n)) == Shl64(hi, 64 - n) + Shr64(lo, n) < B
    ensures (hi * B + lo) / Pow2(n) == Shr64(hi, n) * B + (Shl64(hi, 64 - n) + Shr64(lo, n))
  {
    hide Pow2, Or, Shl64, Shr64;
    Carried(hi, 64 - n);
    Carried(lo, 64 - n);
    var s, z := Shl64(hi, 64 - n), Shr64(lo, n);
    Commuted(z, s, 64 - n);
    Joined(s, z, 64 - n);
    Dropped(hi, n);
    Dropped(lo, n);
    ShiftSplit(n);
    ShrLowFinal(hi, lo, Pow2(n), Pow2(64 - n), Shr64(hi, n), hi % Pow2(n), z, lo % Pow2(n), s);
  }

  /** A limb shifted right, and the bits it drops. */
  lemma Dropped(a: nat, n: nat)
    requires a < B && n <= 64
    ensures a == Pow2(n) * Shr64(a, n) + a % Pow2(n) && a % Pow2(n) < Pow2(n) && Shr64(a, n) <= a
    ensures Shl64(a, 64 - n) == Pow2(64 - n) * (a % Pow2(n))
  {
    hide Pow2, Shl64;
    Smaller(a, Pow2(n));
    Shl64Is(a, 64 - n);
  }

  lemma ShrLowFinal(hi: nat, lo: nat, p: nat, q: nat, x: nat, y: nat, z: nat, m: nat, s: nat)
    requires p * q == B && hi == p * x + y && lo == p * z + m && m < p && s == q * y
    ensures (hi * B + lo) / p == x * B + (s + z)
  {
    ShrLowSum(hi, lo, p, q, B, x, y, z, m);
    Unique(hi * B + lo, p, x * B + s + z, m);
  }

  lemma ShrLow(a: U128, n: nat)
    requires Ok(a) && 0 < n < 64
    ensures Ok(Shr(a, n)) && Value(Shr(a, n)) == Value(a) / Pow2(n)
  {
    hide Pow2, Or, Shl64, Shr64;
    ShrLowValue(a.hi, a.lo, n);
  }

  lemma Commuted(z: nat, hi: nat, k: nat)
    requires hi % Pow2(k) == 0 && z < Pow2(k)
    ensures Or(z, hi) == hi + z
  {
    OrCommutes(z, hi);
    OrDisjoint(hi, z, k);
  }

  lemma {:induction false} OrCommutes(a: nat, b: nat)
    ensures Or(a, b) == Or(b, a)
    decreases a + b
  {
    if a > 0 || b > 0 {
      OrCommutes(a / 2, b / 2);
    }
  }

  // ----- multiplication by a 64-bit number

  /** What the two middle products and the carry out of the lowest leave for the middle. */
  function Carry(x: nat, b: nat): nat {
    x % H * (b % H) / H + x % H * (b / H) % H + x / H * (b % H) % H
  }

  function MulLow(x: nat, b: nat): nat {
    Or(x % H * (b % H) % H, Carry(x, b) * H % B)
  }

  function MulHigh(x: nat, b: nat): nat {
    x / H * (b / H) + x % H * (b / H) / H + x / H * (b % H) / H + Carry(x, b) / H
  }

  /** Schoolbook multiplication on 32-bit halves; the low 128 bits are kept. */
  function MulU64(a: U128, b: nat): U128 {
    U128((MulHigh(a.lo, b) + a.hi * b % B) % B, MulLow(a.lo, b))
  }

  lemma HalvesProduct(al: nat, ah: nat, bl: nat, bh: nat)
    ensures (ah * H + al) * (bh * H + bl) == al * bl + H * (al * bh + ah * bl) + B * (ah * bh)
  {
    Distribute(ah * H, al, bh * H + bl);
    Distribute(bh * H, bl, ah * H);
    Distribute(bh * H, bl, al);
    ProductOfShifted(ah, bh);
    Associate(ah, H, bl);
    Associate(al, bh, H);
  }

  lemma ProductOfShifted(a: nat, b: nat)
    ensures (a * H) * (b * H) == B * (a * b)
  {
    Associate(a, H, b * H);
    Associate(H, b, H);
    Associate(a, b, B);
  }

  /** Halves of a 64-bit product fit in 64 bits. */
  lemma HalfProduct(x: nat, y: nat)
    requires x < H && y < H
    ensures x * y < B
  {
    Steps(x, H, y);
    Steps(y, H, H);
    AtLeast(x, H, y);
    Commute(x, y);
  }

  lemma LimbMod(x: nat, lo: nat)
    requires lo < B
    ensures (x * B + lo) % Q == (x % B) * B + lo
  {
    var q, r := x / B, x % B;
    Unique(x * B + lo, Q, q, r * B + lo);
  }

  lemma CarryShift(carry: nat)
    ensures carry * H % B == H * (carry % H)
  {
    var q, r := carry / H, carry % H;
    Unique(carry * H, B, q, H * r);
  }

  /** The product of two 64-bit numbers, in two limbs. */
  lemma LowProduct(x: nat, b: nat)
    ensures x * b == MulHigh(x, b) * B + MulLow(x, b) && MulLow(x, b) < B
  {
    hide Or, Pow2;
    var al, ah, bl, bh := x % H, x / H, b % H, b / H;
    var p0, p1, p2, p3 := al * bl, al * bh, ah * bl, ah * bh;
    HalvesProduct(al, ah, bl, bh);
    LowLimb(x, b, p0, p1, p2);
    Regroup(p0, p1, p2, p3, Carry(x, b));
  }

  lemma LowLimb(x: nat, b: nat, p0: nat, p1: nat, p2: nat)
    requires p0 == x % H * (b % H) && p1 == x % H * (b / H) && p2 == x / H * (b % H)
    ensures Carry(x, b) == p0 / H + p1 % H + p2 % H
    ensures MulLow(x, b) == p0 % H + H * (Carry(x, b) % H) < B
  {
    hide Or, Pow2;
    CarryShift(Carry(x, b));
    OrLow(p0 % H, Carry(x, b) % H);
  }

  /** Adding the high limb's share only touches the high limb. */
  lemma HighProduct(hi: nat, lo: nat, b: nat, high: nat, low: nat)
    requires lo * b == high * B + low && low < B
    ensures (hi * B + lo) * b % Q == (high + hi * b) % B * B + low
  {
    Distribute(hi * B, lo, b);
    Associate(hi, B, b);
    Commute(B, hi * b);
    Distribute(high, hi * b, B);
    LimbMod(high + hi * b, low);
  }

  lemma MulIs(a: U128, b: nat)
    requires Ok(a) && b < B
    ensures Ok(MulU64(a, b)) && Value(MulU64(a, b)) == Value(a) * b % Q
  {
    hide MulLow, MulHigh;
    var high, low := MulHigh(a.lo, b), MulLow(a.lo, b);
    LowProduct(a.lo, b);
    HighProduct(a.hi, a.lo, b, high, low);
    Reduced(high, a.hi * b);
  }

  lemma Reduced(x: nat, y: nat)
    ensures (x + y % B) % B == (x + y) % B
  {
    var q := y / B;
    var z := x + y % B;
    Unique(x + y, B, q + z / B, z % B);
  }

  lemma Regroup(p0: nat, p1: nat, p2: nat, p3: nat, carry: nat)
    requires carry == p0 / H + p1 % H + p2 % H
    ensures p0 + H * (p1 + p2) + B * p3 == (p3 + p1 / H + p2 / H + carry / H) * B + (p0 % H + H * (carry % H))
  {
  }

  lemma OrLow(v: nat, c: nat)
    requires v < H && c < H
    ensures Or(v, H * c) == v + H * c
  {
    hide Or;
    LowPower();
    Multiple(H, c);
    Commuted(v, H * c, 32);
  }

  lemma LowPower()
    ensures Pow2(32) == H
  {
    Powers();
  }

  // ----- division by ten

  /** One 32-bit digit of the long division, with the remainder so far on its left. */
  function Digit(r: nat, d: nat): nat {
    Or(r * H, d)
  }

  function Div10(a: U128): U128 {
    var d3, d2, d1, d0 := a.hi / H, a.hi % H, a.lo / H, a.lo % H;
    var t3 := d3;
    var t2 := Digit(t3 % 10, d2);
    var t1 := Digit(t2 % 10, d1);
    var t0 := Digit(t1 % 10, d0);
    U128(Or(t3 / 10 * H, t2 / 10), Or(t1 / 10 * H, t0 / 10))
  }

  function Mod10(a: U128): nat {
    var r3 := a.hi / H % 10;
    var r2 := Digit(r3, a.hi % H) % 10;
    var r1 := Digit(r2, a.lo / H) % 10;
    Digit(r1, a.lo % H) % 10
  }

  lemma DigitIs(r: nat, d: nat)
    requires r < H && d < H
    ensures Digit(r, d) == r * H + d
  {
    hide Or;
    LowPower();
    Multiple(H, r);
    Commute(r, H);
    OrDisjoint(r * H, d, 32);
  }

  lemma Div10Is(a: U128)
    requires Ok(a)
    ensures Ok(Div10(a)) && Mod10(a) < 10 && Value(a) == 10 * Value(Div10(a)) + Mod10(a)
  {
    hide Or, Digit, Pow2;
    var d3, d2, d1, d0 := a.hi / H, a.hi % H, a.lo / H, a.lo % H;
    DigitIs(d3 % 10, d2);
    var t2 := Digit(d3 % 10, d2);
    DigitIs(t2 % 10, d1);
    var t1 := Digit(t2 % 10, d1);
    DigitIs(t1 % 10, d0);
    var t0 := Digit(t1 % 10, d0);
    DigitIs(d3 / 10, t2 / 10);
    DigitIs(t1 / 10, t0 / 10);
    DigitOr(d3 / 10, t2 / 10);
    DigitOr(t1 / 10, t0 / 10);
  }

  lemma DigitOr(r: nat, d: nat)
    ensures Or(r * H, d) == Digit(r, d)
  {
  }
}
