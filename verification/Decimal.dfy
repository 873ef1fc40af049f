/** Decimal numerals: the canonical one, and the one padded with zeros to a given width. */
module Decimal {
  import opened Arithmetic
  import opened Bytes

  const ZERO: byte := 48

  function Pow10(k: nat): (r: nat)
    ensures r > 0
  {
    if k == 0 then 1 else 10 * Pow10(k - 1)
  }

  function Digit(v: nat): (c: byte)
    requires v < 10
  {
    ZERO + v
  }

  /** The canonical numeral: no leading zero, except for 0 itself. */
  function Numeral(n: nat): (s: seq<byte>)
    ensures s != []
  {
    if n < 10 then [Digit(n)] else Numeral(n / 10) + [Digit(n % 10)]
  }

  /** The last `w` digits of `n`. */
  function Padded(n: nat, w: nat): (s: seq<byte>)
    ensures |s| == w
    decreases w
  {
    if w == 0 then [] else Padded(n / 10, w - 1) + [Digit(n % 10)]
  }

  /** What a numeral stands for. */
  function Value(s: seq<byte>): (n: int) {
    if s == [] then 0 else 10 * Value(s[..|s| - 1]) + (s[|s| - 1] - ZERO)
  }

  /** The canonical numeral of n stands for n and starts with 0 only when it is 0. */
  lemma {:induction false} NumeralIsCanonical(n: nat)
    ensures Value(Numeral(n)) == n
    ensures Numeral(n)[0] == ZERO <==> n == 0
    ensures forall i :: 0 <= i < |Numeral(n)| ==> ZERO <= Numeral(n)[i] <= ZERO + 9
    decreases n
  {
    if n >= 10 {
      NumeralIsCanonical(n / 10);
      var s := Numeral(n);
      assert s[..|s| - 1] == Numeral(n / 10);
    } else {
      assert Numeral(n)[..0] == [];
    }
  }

  lemma Pow10Values()
    ensures Pow10(0) == 1 && Pow10(1) == 10 && Pow10(2) == 100 && Pow10(3) == 1000 && Pow10(4) == 10000
    ensures Pow10(5) == 100000 && Pow10(6) == 1000000 && Pow10(7) == 10000000 && Pow10(8) == 100000000
    ensures Pow10(9) == 1000000000 && Pow10(10) == 10000000000
  {
    assert Pow10(2) == 100;
    assert Pow10(4) == 10000;
    assert Pow10(6) == 1000000;
    assert Pow10(8) == 100000000;
  }

  /** `n` without its last k digits. */
  function Top(n: nat, k: nat): (r: nat)
    decreases k
  {
    if k == 0 then n else Top(n / 10, k - 1)
  }

  /** The number that the last k digits of `n` stand for. */
  function Low(n: nat, k: nat): (r: nat)
    decreases k
  {
    if k == 0 then 0 else Low(n / 10, k - 1) * 10 + n % 10
  }

  lemma {:induction false} TopLow(n: nat, k: nat)
    ensures n == Top(n, k) * Pow10(k) + Low(n, k)
    ensures Low(n, k) < Pow10(k)
    decreases k
  {
    if k > 0 {
      TopLow(n / 10, k - 1);
      MulTen(Top(n, k), Pow10(k - 1));
    }
  }

  lemma MulTen(a: nat, p: nat)
    ensures 10 * (a * p) == a * (10 * p)
  {
  }

  lemma TopLowDivMod(n: nat, k: nat)
    ensures Top(n, k) == n / Pow10(k) && Low(n, k) == n % Pow10(k)
  {
    TopLow(n, k);
    DivModUnique(n, Pow10(k), Top(n, k), Low(n, k));
  }

  /** A padded numeral splits into the quotient's and the remainder's. */
  lemma {:induction false} PaddedSplit(n: nat, w: nat, k: nat)
    requires k <= w
    ensures Padded(n, w) == Padded(Top(n, k), w - k) + Padded(Low(n, k), k)
    decreases k
  {
    if k == 0 {
      assert Padded(n, w) + [] == Padded(n, w);
    } else {
      PaddedSplit(n / 10, w - 1, k - 1);
      var a, b := Padded(Top(n, k), w - k), Padded(Low(n / 10, k - 1), k - 1);
      assert a + b + [Digit(n % 10)] == a + (b + [Digit(n % 10)]);
    }
  }

  /** A number with exactly w digits. */
  lemma {:induction false} NumeralIsPadded(n: nat, w: nat)
    requires w >= 1 && n < Pow10(w) && (w == 1 || Pow10(w - 1) <= n)
    ensures Numeral(n) == Padded(n, w)
    decreases w
  {
    if w == 1 {
      assert Padded(n / 10, 0) == [];
    } else {
      NumeralIsPadded(n / 10, w - 1);
    }
  }

  /** A numeral continued with padded digits. */
  lemma {:induction false} NumeralSplit(n: nat, k: nat)
    requires n >= Pow10(k)
    ensures Numeral(n) == Numeral(Top(n, k)) + Padded(Low(n, k), k)
    decreases k
  {
    if k == 0 {
      assert Numeral(n) + [] == Numeral(n);
    } else {
      NumeralSplit(n / 10, k - 1);
      var a, b := Numeral(Top(n, k)), Padded(Low(n / 10, k - 1), k - 1);
      assert a + b + [Digit(n % 10)] == a + (b + [Digit(n % 10)]);
    }
  }

  // ----- Writing into a buffer -----

  /** A buffer's bytes with `x` written at offset `p`. */
  function Put(s: seq<byte>, p: nat, x: seq<byte>): (r: seq<byte>)
    requires p + |x| <= |s|
    ensures |r| == |s|
  {
    s[..p] + x + s[p + |x|..]
  }

  lemma PutTwice(s: seq<byte>, p: nat, x: seq<byte>, y: seq<byte>)
    requires p + |x| + |y| <= |s|
    ensures Put(Put(s, p, x), p + |x|, y) == Put(s, p, x + y)
  {
  }
}
