/**
 Integer printing two digits at a time from a fixed-point number: t holds u * 2^32 / 10^n rounded up a little,
 so its high word is the leading digits and 100 times its low word brings up the next two.
 */
module Jeaiii {
  import opened Bytes
  import opened Decimal

  const B := 0x1_0000_0000
  const W64 := 0x1_0000_0000_0000_0000
  const MINUS: byte := 45

  // ----- The fixed-point invariant -----

  /** t / 2^32 stands for v / p with an error below one unit in v. */
  predicate Fixed(t: nat, v: nat, p: nat) {
    v * B <= t * p < (v + 1) * B
  }

  lemma MulOrder(a: int, b: int, p: int)
    requires p > 0 && a * p < b * p
    ensures a < b
  {
    assert a >= b ==> a * p >= b * p;
  }

  /** The high word is the quotient. */
  lemma HighWord(t: nat, v: nat, p: nat)
    requires p > 0 && Fixed(t, v, p)
    ensures t / B == v / p
  {
    var q, r := v / p, v % p;
    assert v == q * p + r;
    assert q * B * p == q * p * B;
    assert (q + 1) * B * p == (q * p + p) * B;
    assert q * B * p <= v * B;
    assert (v + 1) * B <= (q + 1) * B * p;
    MulOrder(t, (q + 1) * B, p);
    MulOrder(q * B - 1, t, p) by {
      assert (q * B - 1) * p == q * B * p - p;
    }
  }

  /** The low word, scaled up by c, stands for the remainder. */
  lemma LowWord(t: nat, v: nat, p: nat, c: nat, p': nat)
    requires p > 0 && p == c * p' && Fixed(t, v, p)
    ensures Fixed(c * (t % B), v % p, p')
  {
    var q, r := v / p, v % p;
    HighWord(t, v, p);
    var low := t % B;
    assert t == q * B + low && v == q * p + r;
    assert c * low * p' == low * p by { assert c * low * p' == low * (c * p'); }
    assert low * p == t * p - q * B * p by { assert (q * B + low) * p == q * B * p + low * p; }
    assert q * B * p == q * p * B;
    assert v * B - q * p * B == r * B by { assert (q * p + r) * B == q * p * B + r * B; }
    assert (v + 1) * B - q * p * B == (r + 1) * B;
  }

  // ----- The multipliers -----

  /** N / 5 * N * 53 / 16 */
  function Shift(n: nat): (s: nat) { n / 5 * n * 53 / 16 }

  function Pow2(k: nat): (r: nat)
    ensures r > 0
  {
    if k == 0 then 1 else 2 * Pow2(k - 1)
  }

  function Div(a: nat, d: nat): (r: nat)
    requires d > 0
  {
    a / d
  }

  function Multiplier(n: nat): (m: nat)
    requires n <= 8
  {
    Div(Pow2(32 + Shift(n)), Pow10(n)) + 1 + n / 6 - n / 8
  }

  lemma {:induction false} Pow2Add(a: nat, b: nat)
    ensures Pow2(a + b) == Pow2(a) * Pow2(b)
    decreases a
  {
    if a > 0 {
      Pow2Add(a - 1, b);
    }
  }

  lemma Pow2Values()
    ensures Pow2(16) == 0x1_0000 && Pow2(19) == 0x8_0000 && Pow2(23) == 0x80_0000 && Pow2(26) == 0x400_0000
    ensures Pow2(32) == B && Pow2(48) == 0x1_0000 * B && Pow2(51) == 0x8_0000 * B
    ensures Pow2(55) == 0x80_0000 * B && Pow2(58) == 0x400_0000 * B
  {
    assert Pow2(4) == 16;
    assert Pow2(8) == 256;
    Pow2Add(8, 8);
    assert Pow2(3) == 8 && Pow2(7) == 128 && Pow2(10) == 1024;
    Pow2Add(3, 16);
    Pow2Add(7, 16);
    Pow2Add(10, 16);
    Pow2Add(16, 16);
    Pow2Add(16, 32);
    Pow2Add(19, 32);
    Pow2Add(23, 32);
    Pow2Add(26, 32);
  }

  /** What the macros' constants come to. */
  lemma SmallMultipliers()
    ensures Shift(1) == 0 && Shift(2) == 0 && Shift(3) == 0 && Shift(4) == 0
    ensures Multiplier(1) == 429496730 && Multiplier(2) == 42949673 && Multiplier(3) == 4294968 && Multiplier(4) == 429497
  {
    Pow2Values();
    Pow10Values();
    hide Pow2;
    hide Pow10;
  }

  lemma LargeMultipliers()
    ensures Shift(5) == 16 && Shift(6) == 19 && Shift(7) == 23 && Shift(8) == 26
    ensures Multiplier(5) == 2814749768 && Multiplier(6) == 2251799815
    ensures Multiplier(7) == 3602879703 && Multiplier(8) == 2882303762
  {
    Pow2Values();
    Pow10Values();
    hide Pow2;
    hide Pow10;
  }

  /** The numbers that each starting point is used for: n + 2 digits, leading zeros only for n = 6. */
  predicate Suits(n: nat, u: nat) {
    && 1 <= n <= 8 && u < B && u < Pow10(n + 2)
    && (n == 6 || Pow10(n + 1) <= u)
  }

  function Scaled(m: nat, u: nat, d: nat): (r: nat)
    requires d > 0
  {
    assert m * u >= 0;
    m * u / d
  }

  /** CINATRAA without its store. */
  function Start(n: nat, u: nat): (t: nat)
    requires n <= 8
  {
    hide Multiplier;
    hide Pow2;
    hide Shift;
    Scaled(Multiplier(n), u, Pow2(Shift(n))) + n / 6 * 4
  }

  /** Whole multiples: nothing is shifted out. */
  lemma {:induction false} SmallStart(n: nat, u: nat)
    requires Suits(n, u) && n <= 4
    ensures Fixed(Start(n, u), u, Pow10(n)) && Multiplier(n) * u < W64
  {
    Pow10Values();
    SmallMultipliers();
    assert Pow2(0) == 1;
    hide Pow10;
    hide Pow2;
    hide Shift;
    hide Multiplier;
    if n == 1 {
    } else if n == 2 {
    } else if n == 3 {
    } else {
      assert n == 4;
    }
  }

  /** The multiplier is rounded up by enough to cover what the shift drops. */
  lemma {:induction false} LargeStart(n: nat, u: nat)
    requires Suits(n, u) && n > 4
    ensures Fixed(Start(n, u), u, Pow10(n)) && Multiplier(n) * u < W64
  {
    Pow10Values();
    LargeMultipliers();
    Pow2Values();
    hide Pow10;
    hide Pow2;
    hide Shift;
    hide Multiplier;
    if n == 5 {
    } else if n == 6 {
    } else if n == 7 {
    } else {
      assert n == 8;
    }
  }

  // ----- The stores -----

  /** CINATRAW: the table entry for i is its two digits. */
  method StorePair(b: array<byte>, q: nat, i: nat)
    requires i < 100 && q + 2 <= b.Length
    modifies b
    ensures b[..] == Put(old(b[..]), q, Padded(i, 2))
  {
    b[q] := Digit(i / 10);
    b[q + 1] := Digit(i % 10);
    PaddedTwo(i);
  }

  lemma PaddedTwo(i: nat)
    requires i < 100
    ensures Padded(i, 2) == [Digit(i / 10), Digit(i % 10)]
  {
    assert Padded(i / 10, 1) == Padded(i / 10 / 10, 0) + [Digit(i / 10 % 10)];
  }

  lemma PaddedOne(i: nat)
    requires i < 10
    ensures Padded(i, 1) == [Digit(i)]
  {
    assert Padded(i / 10, 0) == [];
  }

  lemma TopBelow(v: nat, k: nat, w: nat)
    requires v < Pow10(k + w)
    ensures Top(v, k) < Pow10(w)
    decreases k
  {
    if k > 0 {
      TopBelow(v / 10, k - 1, w);
    }
  }

  /** The fixed-point number for u; no step leaves 64 bits. */
  method FixedPoint(n: nat, u: nat) returns (t: nat)
    requires Suits(n, u)
    ensures Fixed(t, u, Pow10(n))
  {
    if n <= 4 { SmallStart(n, u); } else { LargeStart(n, u); }
    var m := Multiplier(n);
    hide Multiplier;
    hide Shift;
    hide Fixed;
    assert m * u < W64;
    t := Scaled(m, u, Pow2(Shift(n)));
    t := t + n / 6 * 4;
  }

  /** CINATRAA: the fixed-point number for u, and its two leading digits. */
  method FirstPair(n: nat, u: nat, b: array<byte>, p: nat) returns (t: nat)
    requires Suits(n, u) && p + 2 <= b.Length
    modifies b
    ensures Fixed(t, u, Pow10(n))
    ensures b[..] == Put(old(b[..]), p, Padded(Top(u, n), 2))
  {
    t := FixedPoint(n, u);
    hide Fixed;
    HighWord(t, u, Pow10(n));
    TopLowDivMod(u, n);
    TopBelow(u, n, 2);
    assert Pow10(2) == 100;
    StorePair(b, p, t / B);
  }

  /** CINATRAD: the next two digits. */
  method NextPair(t: nat, ghost v: nat, ghost k: nat, b: array<byte>, q: nat) returns (t': nat)
    requires k >= 2 && Fixed(t, v, Pow10(k)) && q + 2 <= b.Length
    modifies b
    ensures Fixed(t', Low(v, k), Pow10(k - 2))
    ensures b[..] == Put(old(b[..]), q, Padded(Top(Low(v, k), k - 2), 2))
  {
    hide Fixed;
    assert Pow10(k) == 100 * Pow10(k - 2);
    LowWord(t, v, Pow10(k), 100, Pow10(k - 2));
    t' := 100 * (t % B);
    TopLowDivMod(v, k);
    HighWord(t', Low(v, k), Pow10(k - 2));
    TopLowDivMod(Low(v, k), k - 2);
    TopLow(v, k);
    TopBelow(Low(v, k), k - 2, 2);
    assert Pow10(2) == 100;
    StorePair(b, q, t' / B);
  }

  /** CINATRAS: the last digit. */
  method LastDigit(t: nat, ghost v: nat, b: array<byte>, q: nat)
    requires Fixed(t, v, Pow10(1)) && q + 1 <= b.Length
    modifies b
    ensures b[..] == Put(old(b[..]), q, Padded(Low(v, 1), 1))
  {
    hide Fixed;
    assert Pow10(1) == 10 && Pow10(0) == 1;
    LowWord(t, v, 10, 10, 1);
    HighWord(10 * (t % B), v % 10, 1);
    assert Low(v, 1) == v % 10;
    PaddedOne(v % 10);
    b[q] := Digit(10 * (t % B) / B);
  }

  // ----- CINATRAL0 .. CINATRAL9: a number with N + 1 digits -----

  lemma Put2(s: seq<byte>, p: nat, u: nat, w: nat, k: nat)
    requires k <= w && p + w <= |s|
    ensures Put(Put(s, p, Padded(Top(u, k), w - k)), p + w - k, Padded(Low(u, k), k)) == Put(s, p, Padded(u, w))
  {
    PaddedSplit(u, w, k);
    PutTwice(s, p, Padded(Top(u, k), w - k), Padded(Low(u, k), k));
  }

  /** Pairs from the fixed-point number t until `k` digits of v are written. */
  method Pairs(t: nat, ghost v: nat, k: nat, b: array<byte>, q: nat)
    requires Fixed(t, v, Pow10(k)) && q + k <= b.Length && 1 <= k <= 8
    modifies b
    ensures b[..] == Put(old(b[..]), q, Padded(Low(v, k), k))
    decreases k
  {
    hide Fixed;
    if k == 1 {
      LastDigit(t, v, b, q);
      return;
    }
    ghost var s, r := b[..], Low(v, k);
    var t' := NextPair(t, v, k, b, q);
    if k == 2 {
      assert Top(r, 0) == r;
      return;
    }
    Put2(s, q, r, k, k - 2);
    Pairs(t', r, k - 2, b, q + 2);
  }

  /** LN(n): exactly n + 1 digits of u are written at p. */
  method WriteDigits(n: nat, u: nat, b: array<byte>, p: nat) returns (q: nat)
    requires n <= 9 && u < B && u < Pow10(n + 1) && (n == 0 || n == 7 || Pow10(n) <= u)
    requires p + n + 1 <= b.Length
    modifies b
    ensures q == p + n + 1
    ensures b[..] == Put(old(b[..]), p, Padded(u, n + 1))
  {
    q := p + n + 1;
    if n == 0 {
      assert Pow10(1) == 10;
      PaddedOne(u);
      b[p] := Digit(u);
    } else if n == 1 {
      assert Pow10(2) == 100;
      StorePair(b, p, u);
    } else {
      ghost var s := b[..];
      var t := FirstPair(n - 1, u, b, p);
      Put2(s, p, u, n + 1, n - 1);
      Pairs(t, u, n - 1, b, p + 2);
    }
  }

  /** LG: the number of digits picks the width. */
  method WriteU32(u: nat, b: array<byte>, p: nat) returns (q: nat)
    requires u < B && p + |Numeral(u)| <= b.Length
    modifies b
    ensures q == p + |Numeral(u)| && |Numeral(u)| <= 10
    ensures b[..] == Put(old(b[..]), p, Numeral(u))
  {
    Pow10Values();
    hide Pow10;
    hide Numeral;
    hide Put;
    var n := if u < 100 then (if u < 10 then 0 else 1)
             else if u < 1000000 then
               (if u < 10000 then (if u < 1000 then 2 else 3) else if u < 100000 then 4 else 5)
             else if u < 100000000 then (if u < 10000000 then 6 else 7)
             else if u < 1000000000 then 8 else 9;
    NumeralIsPadded(u, n + 1);
    q := WriteDigits(n, u, b, p);
  }

  /** `i32toa_jeaiii` */
  method WriteI32(i: int, b: array<byte>, p: nat) returns (q: nat)
    requires -0x8000_0000 <= i < 0x8000_0000 && p + |SignedNumeral(i)| <= b.Length
    modifies b
    ensures q == p + |SignedNumeral(i)| && |SignedNumeral(i)| <= 11
    ensures b[..] == Put(old(b[..]), p, SignedNumeral(i))
  {
    hide Numeral;
    ghost var s := b[..];
    var u, at := (i + B) % B, p;
    if i < 0 {
      b[at] := MINUS;
      at := at + 1;
      u := (0 - u) % B;
      assert u == -i;
      PutTwice(s, p, [MINUS], Numeral(u));
      assert b[..] == Put(s, p, [MINUS]);
    }
    q := WriteU32(u, b, at);
  }

  function SignedNumeral(i: int): (s: seq<byte>) {
    if i < 0 then [MINUS] + Numeral(-i) else Numeral(i)
  }

  lemma NumeralBelow(n: nat, w: nat)
    requires n < Pow10(w) && w >= 1
    ensures |Numeral(n)| <= w
    decreases w
  {
    if n >= 10 {
      NumeralBelow(n / 10, w - 1);
    }
  }

  /** `u64toa_jeaiii`: the canonical numeral, at most 20 bytes, and the offset just past it. */
  method WriteU64(n: nat, b: array<byte>, p: nat) returns (q: nat)
    requires n < W64 && p + |Numeral(n)| <= b.Length
    modifies b
    ensures q == p + |Numeral(n)| && |Numeral(n)| <= 20
    ensures b[..] == Put(old(b[..]), p, Numeral(n))
  {
    hide Numeral;
    hide Padded;
    hide Put;
    ghost var s := b[..];
    if n / B == 0 {
      q := WriteU32(n, b, p);
      return;
    }
    assert Pow10(8) == 100000000 by { Pow10Values(); }
    hide Pow10;
    var a := n / 100000000;
    SplitEight(n);
    PutTwice(s, p, Numeral(a), Padded(n % 100000000, 8));
    if a / B == 0 {
      q := WriteU32(a, b, p);
    } else {
      SplitEight(a);
      FourDigits(a / 100000000);
      PutTwice(s, p, Numeral(a / 100000000), Padded(a % 100000000, 8));
      q := WriteU32(a / 100000000, b, p);
      q := WriteDigits(7, a % 100000000, b, q);
    }
    q := WriteDigits(7, n % 100000000, b, q);
  }

  lemma SplitEight(n: nat)
    requires n >= 100000000
    ensures Numeral(n) == Numeral(n / 100000000) + Padded(n % 100000000, 8)
  {
    Pow10Values();
    TopLowDivMod(n, 8);
    NumeralSplit(n, 8);
  }

  lemma FourDigits(n: nat)
    requires n < 10000
    ensures |Numeral(n)| <= 4
  {
    Pow10Values();
    NumeralBelow(n, 4);
  }

  lemma NineteenDigits(n: nat)
    requires n <= 0x8000_0000_0000_0000
    ensures |Numeral(n)| <= 19
  {
    Pow10Values();
    var a, e := n / 100000000, 100000000;
    if n < e {
      NumeralBelow(n, 8);
    } else {
      SplitEight(n);
      if a < e {
        NumeralBelow(a, 8);
      } else {
        SplitEight(a);
        NumeralBelow(a / e, 3);
      }
    }
  }

  /** Unsigned arithmetic on the bits of a signed number. */
  lemma Wrapped(i: int)
    requires -0x8000_0000_0000_0000 <= i < 0x8000_0000_0000_0000
    ensures var n := (i + W64) % W64; if i < 0 then (0 - n) % W64 == -i else n == i
  {
  }

  /** `i64toa_jeaiii`, the least value included. */
  method WriteI64(i: int, b: array<byte>, p: nat) returns (q: nat)
    requires -0x8000_0000_0000_0000 <= i < 0x8000_0000_0000_0000 && p + |SignedNumeral(i)| <= b.Length
    modifies b
    ensures q == p + |SignedNumeral(i)| && |SignedNumeral(i)| <= 20
    ensures b[..] == Put(old(b[..]), p, SignedNumeral(i))
  {
    NineteenDigits(if i < 0 then -i else i);
    hide Numeral;
    hide Pow10;
    ghost var s := b[..];
    var n, at := (i + W64) % W64, p;
    Wrapped(i);
    if i < 0 {
      b[at] := MINUS;
      at := at + 1;
      n := (0 - n) % W64;
      PutTwice(s, p, [MINUS], Numeral(n));
      assert b[..] == Put(s, p, [MINUS]);
    }
    hide Put;
    q := WriteU64(n, b, at);
  }
}
