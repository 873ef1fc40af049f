/**
 Integer printing by exact division with multiplicative inverses: a number is split in halves until pairs of
 digits are left (the forward direction of `dec_::convert`).
 */
module Itoa {
  import opened Bytes
  import opened Decimal
  import Jeaiii

  const B16 := 0x1_0000
  const B32 := 0x1_0000_0000

  datatype QR = QR(q: nat, r: nat)

  /** split<2>: a 16-bit number by 10^2, with one added before the multiplication. */
  function Split2(u: nat): (x: QR)
    requires u < B16
    ensures x == QR(u / 100, u % 100)
    ensures 41943 * (u + 1) < B32
  {
    var q := 41943 * (u + 1) / 0x40_0000;
    QR(q, u - q * 100)
  }

  /** split<4>: a 32-bit number by 10^4. */
  function Split4(u: nat): (x: QR)
    requires u < B32
    ensures x == QR(u / 10000, u % 10000)
    ensures 3518437209 * u < 0x1_0000_0000_0000_0000
  {
    var q := 3518437209 * u / 0x2000_0000_0000;
    QR(q, u - q * 10000)
  }

  lemma SplitHundred(n: nat, w: nat)
    requires w >= 2
    ensures Padded(n, w) == Padded(n / 100, w - 2) + Padded(n % 100, 2)
    ensures n >= 100 ==> Numeral(n) == Numeral(n / 100) + Padded(n % 100, 2)
  {
    Pow10Values();
    TopLowDivMod(n, 2);
    PaddedSplit(n, w, 2);
    if n >= 100 { NumeralSplit(n, 2); }
  }

  lemma SplitMyriad(n: nat)
    requires n >= 10000
    ensures Numeral(n) == Numeral(n / 10000) + Padded(n % 10000, 4)
  {
    Pow10Values();
    TopLowDivMod(n, 4);
    NumeralSplit(n, 4);
  }

  lemma NumeralOfPair(u: nat)
    requires 10 <= u < 100
    ensures Numeral(u) == Padded(u, 2)
  {
    Pow10Values();
    NumeralIsPadded(u, 2);
  }

  /** tail for one byte: both digits. */
  method TailByte(u: nat, b: array<byte>, p: nat) returns (q: nat)
    requires u < 100 && p + 2 <= b.Length
    modifies b
    ensures q == p + 2 && b[..] == Put(old(b[..]), p, Padded(u, 2))
  {
    Jeaiii.StorePair(b, p, u);
    q := p + 2;
  }

  /** tail for two bytes: all four digits, leading zeros included. */
  method TailShort(u: nat, b: array<byte>, p: nat) returns (q: nat)
    requires u < 10000 && p + 4 <= b.Length
    modifies b
    ensures q == p + 4 && b[..] == Put(old(b[..]), p, Padded(u, 4))
  {
    hide Padded;
    hide Put;
    ghost var s := b[..];
    var x := Split2(u);
    SplitHundred(u, 4);
    PutTwice(s, p, Padded(x.q, 2), Padded(x.r, 2));
    q := TailByte(x.q, b, p);
    q := TailByte(x.r, b, q);
  }

  /** head for one byte: no leading zero. */
  method HeadByte(u: nat, b: array<byte>, p: nat) returns (q: nat)
    requires u < 100 && p + |Numeral(u)| <= b.Length
    modifies b
    ensures q == p + |Numeral(u)| && b[..] == Put(old(b[..]), p, Numeral(u))
  {
    if u < 10 {
      b[p] := Digit(u);
      q := p + 1;
    } else {
      NumeralOfPair(u);
      q := TailByte(u, b, p);
    }
  }

  /** head for two bytes. */
  method HeadShort(u: nat, b: array<byte>, p: nat) returns (q: nat)
    requires u < 10000 && p + |Numeral(u)| <= b.Length
    modifies b
    ensures q == p + |Numeral(u)| && b[..] == Put(old(b[..]), p, Numeral(u))
  {
    hide Numeral;
    hide Padded;
    hide Put;
    ghost var s := b[..];
    if u < 100 {
      q := HeadByte(u, b, p);
    } else {
      var x := Split2(u);
      SplitHundred(u, 4);
      PutTwice(s, p, Numeral(x.q), Padded(x.r, 2));
      q := HeadByte(x.q, b, p);
      q := TailByte(x.r, b, q);
    }
  }

  /** itoa for four bytes: one, two or three groups of four digits. */
  method WriteU32(u: nat, b: array<byte>, p: nat) returns (q: nat)
    requires u < B32 && p + |Numeral(u)| <= b.Length
    modifies b
    ensures q == p + |Numeral(u)| && b[..] == Put(old(b[..]), p, Numeral(u))
  {
    hide Numeral;
    hide Padded;
    hide Put;
    ghost var s := b[..];
    if u < 10000 {
      q := HeadShort(u, b, p);
      return;
    }
    var x := Split4(u);
    SplitMyriad(u);
    PutTwice(s, p, Numeral(x.q), Padded(x.r, 4));
    if u < 100000000 {
      q := HeadShort(x.q, b, p);
    } else {
      var y := Split4(x.q);
      SplitMyriad(x.q);
      PutTwice(s, p, Numeral(y.q), Padded(y.r, 4));
      q := HeadShort(y.q, b, p);
      q := TailShort(y.r, b, q);
    }
    q := TailShort(x.r, b, q);
  }

  /**
   itoa for a signed operand. The absolute value is ((2 * U(i)) & ~mask) - U(i) in unsigned arithmetic; the minus
   sign is always stored and kept only when the value is negative.
   */
  method WriteI32(i: int, b: array<byte>, p: nat) returns (q: nat)
    requires -0x8000_0000 <= i < 0x8000_0000 && p + |Jeaiii.SignedNumeral(i)| <= b.Length
    modifies b
    ensures q == p + |Jeaiii.SignedNumeral(i)|
    ensures b[..] == Put(old(b[..]), p, Jeaiii.SignedNumeral(i))
  {
    hide Numeral;
    ghost var s := b[..];
    var unsigned := (i + B32) % B32;
    var negative := i < 0;
    var u := ((if negative then 0 else 2 * unsigned % B32) - unsigned) % B32;
    assert u == if i < 0 then -i else i;
    b[p] := Jeaiii.MINUS;
    assert b[..] == Put(s, p, [Jeaiii.MINUS]);
    if negative {
      PutTwice(s, p, [Jeaiii.MINUS], Numeral(u));
      q := WriteU32(u, b, p + 1);
    } else {
      q := WriteU32(u, b, p);
      PutOver(s, p, [Jeaiii.MINUS], Numeral(u));
    }
  }

  lemma PutOver(s: seq<byte>, p: nat, x: seq<byte>, y: seq<byte>)
    requires p + |y| <= |s| && |x| <= |y|
    ensures Put(Put(s, p, x), p, y) == Put(s, p, y)
  {
  }
}
