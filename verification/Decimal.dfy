/**
 Decimal text of a 128-bit count: printing digit by digit into a buffer
 (src/iprange6.h, u128_to_dec) and reading it back (src/ipset6_binary.c,
 parse_binary6_u128_field).
 */
module Decimal {
  import opened Collections
  import opened Cidr
  import opened Bits
  import opened Uint128

  predicate IsDigit(c: char) {
    '0' <= c <= '9'
  }

  predicate Digits(s: string) {
    forall i {:trigger s[i]} :: 0 <= i < |s| ==> IsDigit(s[i])
  }

  function Weight(c: char): nat
    requires IsDigit(c)
  {
    c as int - '0' as int
  }

  /** The number a string of digits denotes. */
  function Meaning(s: string): nat
    requires Digits(s)
  {
    if s == [] then 0 else Meaning(s[..|s| - 1]) * 10 + Weight(s[|s| - 1])
  }

  /** Positional notation: a digit is worth its distance from '0', and those before it ten times as much. */
  lemma MeaningIs(s: string, c: char)
    requires Digits(s) && '0' <= c <= '9'
    ensures Digits(s + [c]) && Meaning(s + [c]) == Meaning(s) * 10 + (c as int - '0' as int) && Meaning("") == 0
  {
    assert (s + [c])[..|s|] == s;
  }

  function Pow10(n: nat): (r: nat)
    ensures r >= 1
  {
    if n == 0 then 1 else 10 * Pow10(n - 1)
  }

  lemma {:induction false} Pow10Sum(a: nat, b: nat)
    ensures Pow10(a + b) == Pow10(a) * Pow10(b)
  {
    if a > 0 {
      Pow10Sum(a - 1, b);
      Associate(10, Pow10(a - 1), Pow10(b));
    }
  }

  lemma {:induction false} Pow10Order(a: nat, b: nat)
    requires a <= b
    ensures Pow10(a) <= Pow10(b)
  {
    if a < b {
      Pow10Order(a, b - 1);
    }
  }

  lemma SmallPowers()
    ensures Pow10(3) == 1000 && Pow10(4) == 10000 && Pow10(5) == 100000
  {
  }

  lemma LargePowers()
    ensures Pow10(37) == 10_000_000_000_000_000_000_000_000_000_000_000_000
    ensures Pow10(39) == 1_000_000_000_000_000_000_000_000_000_000_000_000_000
  {
    hide Pow10;
    SmallPowers();
    Pow10Sum(4, 4);
    Pow10Sum(8, 8);
    Pow10Sum(16, 16);
    Pow10Sum(32, 5);
    Pow10Sum(32, 4);
    Pow10Sum(36, 3);
  }

  /** One more digit on the left. */
  lemma {:induction false} MeaningLeft(c: char, s: string)
    requires IsDigit(c) && Digits(s)
    ensures Digits([c] + s) && Meaning([c] + s) == Weight(c) * Pow10(|s|) + Meaning(s)
  {
    var t := [c] + s;
    if s == [] {
      assert t[..0] == [];
    } else {
      var n := |s| - 1;
      MeaningLeft(c, s[..n]);
      assert t[..|t| - 1] == [c] + s[..n];
      Distribute(Weight(c) * Pow10(n), Meaning(s[..n]), 10);
      Associate(Weight(c), Pow10(n), 10);
      Commute(Pow10(n), 10);
    }
  }

  // ----- printing

  function DigitChar(d: nat): char
    requires d < 10
  {
    ('0' as int + d) as char
  }

  /** One digit moves from the number to the text. */
  lemma DigitOut(v: nat, q: nat, d: nat, n: nat, text: nat)
    requires v == 10 * q + d
    ensures v * Pow10(n) + text == q * Pow10(n + 1) + (d * Pow10(n) + text)
  {
    Distribute(10 * q, d, Pow10(n));
    Associate(10, q, Pow10(n));
    Associate(q, 10, Pow10(n));
  }

  /** A number that still has digits to write has written fewer than 39. */
  lemma RoomLeft(v: nat, n: nat, text: nat)
    requires v >= 1 && v * Pow10(n) + text < Q
    ensures n < 39
  {
    hide Pow10;
    LargePowers();
    AtLeast(1, v, Pow10(n));
    Commute(v, Pow10(n));
    if n >= 39 {
      Pow10Order(39, n);
    }
  }

  /** The digits of the value, ending before the terminator; 40 bytes always suffice. */
  method ToDec(buf: array<char>, val: U128) returns (p: nat)
    requires buf.Length >= 40 && Ok(val)
    modifies buf
    ensures p < buf.Length - 1 && buf.Length - 1 - p <= 39 && buf[buf.Length - 1] == '\0'
    ensures Digits(buf[p..buf.Length - 1]) && Meaning(buf[p..buf.Length - 1]) == Value(val)
    ensures buf[p] == '0' ==> Value(val) == 0
  {
    hide Div10, Mod10, Pow10, Meaning;
    var last := buf.Length - 1;
    p := last;
    buf[p] := '\0';
    if val.hi == 0 && val.lo == 0 {
      p := p - 1;
      buf[p] := '0';
      assert buf[p..last] == ['0'];
      MeaningZero();
      return;
    }
    Range(val);
    PowerZeroTen();
    var rest := val;
    assert buf[p..last] == "";
    MeaningZero();
    while !(rest.hi == 0 && rest.lo == 0)
      invariant Ok(rest) && p <= last && last - p <= 39 && buf[last] == '\0'
      invariant Digits(buf[p..last]) && Value(rest) * Pow10(last - p) + Meaning(buf[p..last]) == Value(val)
      invariant p == last ==> rest == val
      invariant p < last && rest.hi == 0 && rest.lo == 0 ==> buf[p] != '0'
      decreases Value(rest)
    {
      ghost var text := buf[p..last];
      Div10Is(rest);
      RoomLeft(Value(rest), last - p, Meaning(text));
      DigitOut(Value(rest), Value(Div10(rest)), Mod10(rest), last - p, Meaning(text));
      p := p - 1;
      buf[p] := DigitChar(Mod10(rest));
      assert buf[p..last] == [DigitChar(Mod10(rest))] + text;
      MeaningLeft(DigitChar(Mod10(rest)), text);
      rest := Div10(rest);
    }
  }

  lemma MeaningZero()
    ensures Meaning("0") == 0 && Meaning("") == 0
  {
    assert "0"[..0] == "";
  }

  lemma PowerZeroTen()
    ensures Pow10(0) == 1
  {
  }

  // ----- parsing

  /** The accumulator after a string of digits; a sum that fell below the last one stops it. */
  function Accumulated(s: string): Option<U128>
    requires Digits(s)
  {
    if s == [] then Some(U128(0, 0))
    else
      var prev := Accumulated(s[..|s| - 1]);
      if prev.None? then None else Shifted(prev.value, s[|s| - 1])
  }

  function Shifted(prev: U128, c: char): Option<U128>
    requires IsDigit(c)
  {
    var next := Add(MulU64(prev, 10), U128(0, Weight(c)));
    if Lt(next, prev) then None else Some(next)
  }

  lemma ShiftedIs(prev: U128, c: char)
    requires Ok(prev) && IsDigit(c)
    ensures Shifted(prev, c).Some? ==> Ok(Shifted(prev, c).value) && Value(Shifted(prev, c).value) == (Value(prev) * 10 + Weight(c)) % Q
    ensures Value(prev) * 10 + Weight(c) < Q ==> Shifted(prev, c).Some?
  {
    hide MulU64, Add, Value, Lt;
    var next := Add(MulU64(prev, 10), U128(0, Weight(c)));
    NextIs(prev, Weight(c));
    LtIs(next, prev);
  }

  lemma NextIs(prev: U128, d: nat)
    requires Ok(prev) && d < 10
    ensures
      var next := Add(MulU64(prev, 10), U128(0, d));
      Ok(next) && Value(next) == (Value(prev) * 10 + d) % Q
  {
    hide MulU64, Add, Value;
    MulIs(prev, 10);
    SmallValue(d);
    AddIs(MulU64(prev, 10), U128(0, d));
    ModPlus(Value(prev) * 10, d);
  }

  lemma SmallValue(d: nat)
    ensures Value(U128(0, d)) == d
  {
  }

  lemma ModPlus(x: nat, y: nat)
    ensures (x % Q + y) % Q == (x + y) % Q
  {
    var q, z := x / Q, x % Q + y;
    Unique(x + y, Q, q + z / Q, z % Q);
  }

  lemma ModTimes(x: nat, y: nat)
    ensures (x % Q * 10 + y) % Q == (x * 10 + y) % Q
  {
    var q, z := x / Q, x % Q * 10 + y;
    Unique(x * 10 + y, Q, 10 * q + z / Q, z % Q);
  }

  /** Whatever is accepted is right modulo 2^128, and every number that fits is accepted. */
  lemma {:induction false} AccumulatedIs(s: string)
    requires Digits(s)
    ensures Accumulated(s).Some? ==> Ok(Accumulated(s).value) && Value(Accumulated(s).value) == Meaning(s) % Q
    ensures Meaning(s) < Q ==> Accumulated(s).Some?
  {
    hide Shifted;
    if s != [] {
      var n := |s| - 1;
      AccumulatedIs(s[..n]);
      if Accumulated(s[..n]).Some? {
        ShiftedIs(Accumulated(s[..n]).value, s[n]);
        ModTimes(Meaning(s[..n]), Weight(s[n]));
      }
    }
  }

  /** Read modulo 2^128, no digit makes the number smaller. */
  predicate NeverFalls(s: string)
    requires Digits(s)
  {
    s == [] || (NeverFalls(s[..|s| - 1]) && Meaning(s[..|s| - 1]) % Q <= Meaning(s) % Q)
  }

  /** Digit k does not make the number read so far smaller modulo 2^128. */
  predicate Rises(s: string, k: nat)
    requires Digits(s) && k < |s|
  {
    Meaning(s[..k]) % Q <= Meaning(s[..k + 1]) % Q
  }

  lemma RisesBefore(s: string, k: nat)
    requires Digits(s) && k < |s| - 1
    ensures Rises(s[..|s| - 1], k) <==> Rises(s, k)
  {
    hide Meaning;
    assert s[..|s| - 1][..k] == s[..k] && s[..|s| - 1][..k + 1] == s[..k + 1];
  }

  lemma {:induction false} FallsNowhere(s: string)
    requires Digits(s)
    ensures NeverFalls(s) <==> forall k: nat :: k < |s| ==> Rises(s, k)
  {
    if s != [] {
      var n := |s| - 1;
      FallsNowhere(s[..n]);
      assert Rises(s, n) <==> Meaning(s[..n]) % Q <= Meaning(s) % Q by { assert s[..n + 1] == s; }
      hide Rises, Meaning;
      forall k: nat | k < n ensures Rises(s[..n], k) <==> Rises(s, k) { RisesBefore(s, k); }
    }
  }

  /** The guard of one turn, on values. */
  lemma ShiftedWhen(prev: U128, c: char)
    requires Ok(prev) && IsDigit(c)
    ensures Shifted(prev, c).Some? <==> Value(prev) <= (Value(prev) * 10 + Weight(c)) % Q
  {
    hide MulU64, Add, Value, Lt;
    NextIs(prev, Weight(c));
    LtIs(Add(MulU64(prev, 10), U128(0, Weight(c))), prev);
  }

  /** Exactly the texts that never fall are accepted, whether they fit or not. */
  lemma {:induction false} AcceptedExactly(s: string)
    requires Digits(s)
    ensures Accumulated(s).Some? <==> NeverFalls(s)
    ensures Accumulated(s).Some? <==> forall k: nat :: k < |s| ==> Rises(s, k)
  {
    FallsNowhere(s);
    hide Shifted, Value;
    if s != [] {
      var n := |s| - 1;
      AcceptedExactly(s[..n]);
      AccumulatedIs(s[..n]);
      if Accumulated(s[..n]).Some? {
        ShiftedWhen(Accumulated(s[..n]).value, s[n]);
        ModTimes(Meaning(s[..n]), Weight(s[n]));
      }
    }
  }

  /**
   The three outcomes, each with its exact condition. An overflow is rejected if and only if
   some digit makes the number smaller modulo 2^128; a number that fits never falls.
   */
  lemma OverflowRejectedExactly(s: string)
    requires Digits(s)
    ensures Meaning(s) < Q ==> NeverFalls(s)
    ensures Accumulated(s).None? <==> Q <= Meaning(s) && !NeverFalls(s)
    ensures (Accumulated(s).Some? && Value(Accumulated(s).value) == Meaning(s)) <==> Meaning(s) < Q
    ensures (Accumulated(s).Some? && Value(Accumulated(s).value) != Meaning(s)) <==> Q <= Meaning(s) && NeverFalls(s)
    ensures (Q <= Meaning(s) ==> Accumulated(s).None?) <==> Meaning(s) < Q || !NeverFalls(s)
  {
    hide Accumulated, Meaning, NeverFalls;
    AccumulatedIs(s);
    AcceptedExactly(s);
  }

  function Zeros(n: nat): string {
    if n == 0 then "" else Zeros(n - 1) + "0"
  }

  lemma {:induction false} FiveZeros(n: nat)
    ensures Digits("5" + Zeros(n)) && Meaning("5" + Zeros(n)) == 5 * Pow10(n)
  {
    var s := "5" + Zeros(n);
    if n == 0 {
      assert s == "5" && "5"[..0] == "";
      assert Meaning("5") == Weight('5');
    } else {
      FiveZeros(n - 1);
      assert s[..|s| - 1] == "5" + Zeros(n - 1) && s[|s| - 1] == '0';
      assert forall i :: 0 <= i < |s| - 1 ==> s[i] == s[..|s| - 1][i];
    }
  }

  /** Some numbers that do not fit are accepted with another value. */
  lemma OverflowAccepted()
    ensures
      var s := "5" + Zeros(38);
      Digits(s) && Accumulated(s).Some? && Value(Accumulated(s).value) != Meaning(s)
  {
    hide Pow10, Shifted;
    FiveZeros(38);
    FiveZeros(37);
    LargePowers();
    Pow10Sum(37, 1);
    OnePower();
    var t, s := "5" + Zeros(37), "5" + Zeros(38);
    assert s[..|s| - 1] == t && s[|s| - 1] == '0' by { ZerosEnd(37); }
    AccumulatedIs(t);
    OverflowStep(Accumulated(t).value);
    AccumulatedIs(s);
  }

  lemma OnePower()
    ensures Pow10(1) == 10
  {
  }

  lemma ZerosEnd(n: nat)
    ensures Zeros(n + 1) == Zeros(n) + "0"
  {
  }

  lemma OverflowStep(v: U128)
    requires Ok(v) && Value(v) == 50_000_000_000_000_000_000_000_000_000_000_000_000
    ensures Shifted(v, '0').Some?
  {
    hide MulU64, Add;
    var product := MulU64(v, 10);
    MulIs(v, 10);
    AddIs(product, U128(0, Weight('0')));
    LtIs(Add(product, U128(0, Weight('0'))), v);
  }

  /** The number of leading digits. */
  function Leading(s: string): (n: nat)
    ensures n <= |s| && Digits(s[..n]) && (n < |s| ==> !IsDigit(s[n]))
  {
    if s == [] || !IsDigit(s[0]) then 0
    else
      var n := Leading(s[1..]);
      assert forall i :: 0 <= i < n ==> s[..n + 1][i + 1] == s[1..][..n][i];
      n + 1
  }

  lemma {:induction false} LeadingIs(s: string, n: nat)
    requires n <= |s| && Digits(s[..n])
    ensures n <= Leading(s) && (n == |s| || !IsDigit(s[n]) ==> n == Leading(s))
    decreases n
  {
    if n > 0 {
      assert s[..n][0] == s[0];
      assert s[1..][..n - 1] == s[..n][1..];
      LeadingIs(s[1..], n - 1);
    }
  }

  /** A field: digits, then a newline or the end. */
  method ParseField(s: string) returns (r: Option<U128>)
    ensures r == if Leading(s) == 0 || (Leading(s) < |s| && s[Leading(s)] != '\n') then None else Accumulated(s[..Leading(s)])
  {
    if s == [] || !IsDigit(s[0]) {
      return None;
    }
    var result := U128(0, 0);
    var i := 0;
    while i < |s| && IsDigit(s[i])
      invariant i <= |s| && Digits(s[..i]) && Accumulated(s[..i]) == Some(result)
    {
      var prev := result;
      result := Add(MulU64(result, 10), U128(0, Weight(s[i])));
      assert s[..i + 1][..i] == s[..i];
      if Lt(result, prev) {
        Stuck(s, i + 1);
        return None;
      }
      i := i + 1;
    }
    LeadingIs(s, i);
    if i < |s| && s[i] != '\n' {
      return None;
    }
    return Some(result);
  }

  /** Once the accumulator stops it stays stopped. */
  lemma Stuck(s: string, n: nat)
    requires n <= |s| && Digits(s[..n]) && Accumulated(s[..n]) == None
    ensures Leading(s) >= n && Accumulated(s[..Leading(s)]) == None
  {
    hide Accumulated, Leading;
    LeadingIs(s, n);
    var m := Leading(s);
    assert s[..m][..n] == s[..n];
    StuckOn(s[..m], n);
  }

  lemma {:induction false} StuckOn(s: string, n: nat)
    requires Digits(s) && n <= |s| && Accumulated(s[..n]) == None
    ensures Accumulated(s) == None
    decreases |s|
  {
    if n < |s| {
      assert s[..|s| - 1][..n] == s[..n];
      StuckOn(s[..|s| - 1], n);
    } else {
      assert s[..n] == s;
    }
  }

  /** Printing any value into 40 bytes and parsing the text gives the value back. */
  method RoundTrip(val: U128) returns (r: Option<U128>)
    requires Ok(val)
    ensures r == Some(val)
  {
    hide Accumulated, Meaning;
    var buf := new char[40];
    var p := ToDec(buf, val);
    var text := buf[p..39];
    r := ParseField(text);
    assert text[..|text|] == text;
    LeadingIs(text, |text|);
    Range(val);
    AccumulatedIs(text);
    OneForm(Accumulated(text).value, val);
  }
}
