/** UTF-8 validation against the encoding of section 3 of RFC 3629. */
module Utf8 {
  import opened Bytes

  /** A Unicode scalar value: a code point that is not a surrogate. */
  type Scalar = c: int | 0 <= c < 0xD800 || 0xE000 <= c < 0x11_0000

  // ----- The encoding -----

  function Encode(c: Scalar): (s: seq<byte>)
    ensures 1 <= |s| <= 4
  {
    if c < 0x80 then [c]
    else if c < 0x800 then [0xC0 + c / 0x40, 0x80 + c % 0x40]
    else if c < 0x1_0000 then [0xE0 + c / 0x1000, 0x80 + c / 0x40 % 0x40, 0x80 + c % 0x40]
    else [0xF0 + c / 0x4_0000, 0x80 + c / 0x1000 % 0x40, 0x80 + c / 0x40 % 0x40, 0x80 + c % 0x40]
  }

  function EncodeAll(cs: seq<Scalar>): (s: seq<byte>) {
    if cs == [] then [] else Encode(cs[0]) + EncodeAll(cs[1..])
  }

  // ----- The bit tests of the validator -----

  /** (b & 0xc0) == 0x80 */
  predicate IsContinuation(b: byte) { b / 0x40 == 2 }

  /** (b & 0x60) == 0x40, after (b & 0x80) != 0 */
  predicate StartsTwo(b: byte) { b / 0x20 % 4 == 2 }

  /** (b & 0xf0) == 0xe0 */
  predicate StartsThree(b: byte) { b / 0x10 == 0xE }

  /** (b & 0xf8) == 0xf0 */
  predicate StartsFour(b: byte) { b / 8 == 0x1E }

  /** Received bytes, as numbers. */
  function Numbers(raw: seq<bv8>): (s: seq<byte>)
    ensures |s| == |raw|
  {
    seq(|raw|, k requires 0 <= k < |raw| => raw[k] as int)
  }

  function Masked(x: bv8, m: bv8): (r: bv8) { x & m }

  /** The masks of the code are these tests. */
  lemma LeadMasks(x: bv8)
    ensures Masked(x, 0xc0) == 0x80 <==> IsContinuation(x as int)
    ensures Masked(x, 0x60) == 0x40 <==> StartsTwo(x as int)
    ensures Masked(x, 0xf0) == 0xe0 <==> StartsThree(x as int)
    ensures Masked(x, 0xf8) == 0xf0 <==> StartsFour(x as int)
  {
  }

  lemma OtherMasks(x: bv8)
    ensures Masked(x, 0x80) == 0 <==> x as int < 0x80
    ensures Masked(x, 0xfe) == 0xc0 <==> x as int / 2 == 0x60
    ensures Masked(x, 0xe0) == 0x80 <==> x as int / 0x20 == 4
    ensures Masked(x, 0xe0) == 0xa0 <==> x as int / 0x20 == 5
    ensures Masked(x, 0xf0) == 0x80 <==> x as int / 0x10 == 8
  {
  }

  lemma Comparisons(x: bv8)
    ensures (x == 0xE0 <==> x as int == 0xE0) && (x == 0xED <==> x as int == 0xED)
    ensures (x == 0xF0 <==> x as int == 0xF0) && (x == 0xF4 <==> x as int == 0xF4)
    ensures (x > 0x8F <==> x as int > 0x8F) && (x > 0xF4 <==> x as int > 0xF4)
  {
  }

  /** The high bits of four bytes loaded as one 32-bit word, least significant first. */
  function HighBits(a: bv8, b: bv8, c: bv8, d: bv8): (r: bv32) {
    (a as bv32 | (b as bv32 << 8) | (c as bv32 << 16) | (d as bv32 << 24)) & 0x80808080
  }

  lemma FourAtOnce(a: bv8, b: bv8, c: bv8, d: bv8)
    ensures HighBits(a, b, c, d) == 0 <==> a as int < 0x80 && b as int < 0x80 && c as int < 0x80 && d as int < 0x80
  {
    WordTest(a, b, c, d);
    hide HighBits;
    OtherMasks(a);
    OtherMasks(b);
    OtherMasks(c);
    OtherMasks(d);
    hide Masked;
  }

  lemma WordTest(a: bv8, b: bv8, c: bv8, d: bv8)
    ensures HighBits(a, b, c, d) == 0
            <==> Masked(a, 0x80) == 0 && Masked(b, 0x80) == 0 && Masked(c, 0x80) == 0 && Masked(d, 0x80) == 0
  {
  }

  /** How many bytes the validator takes from the front of `s`, or 0 when it refuses them. */
  function Take(s: seq<byte>): (n: nat)
    requires s != []
    ensures n <= |s| && n <= 4
  {
    if s[0] < 0x80 then 1
    else if StartsTwo(s[0]) then
      if |s| < 2 || !IsContinuation(s[1]) || s[0] / 2 == 0x60 then 0 else 2
    else if StartsThree(s[0]) then
      if |s| < 3 || !IsContinuation(s[1]) || !IsContinuation(s[2])
         || (s[0] == 0xE0 && s[1] / 0x20 == 4) || (s[0] == 0xED && s[1] / 0x20 == 5) then 0
      else 3
    else if StartsFour(s[0]) then
      if |s| < 4 || !IsContinuation(s[1]) || !IsContinuation(s[2]) || !IsContinuation(s[3])
         || (s[0] == 0xF0 && s[1] / 0x10 == 8) || (s[0] == 0xF4 && s[1] > 0x8F) || s[0] > 0xF4 then 0
      else 4
    else 0
  }

  predicate Accepts(s: seq<byte>)
    decreases |s|
  {
    s == [] || (Take(s) > 0 && Accepts(s[Take(s)..]))
  }

  // ----- The validator accepts exactly the encodings -----

  /** What is taken is the encoding of one scalar value. */
  lemma TakenIsEncoded(s: seq<byte>) returns (c: Scalar)
    requires s != [] && Take(s) > 0
    ensures s[..Take(s)] == Encode(c)
  {
    if s[0] < 0x80 {
      c := s[0];
    } else if StartsTwo(s[0]) {
      var a: int, b: int := s[0], s[1];
      var x := (a - 0xC0) * 0x40 + (b - 0x80);
      assert x / 0x40 == a - 0xC0 && x % 0x40 == b - 0x80;
      c := x;
    } else if StartsThree(s[0]) {
      c := ThreeBytes(s[0], s[1], s[2]);
    } else {
      c := FourBytes(s[0], s[1], s[2], s[3]);
    }
  }

  lemma ThreeBytes(a: byte, b: byte, d: byte) returns (c: Scalar)
    requires StartsThree(a) && IsContinuation(b) && IsContinuation(d)
    requires !(a == 0xE0 && b / 0x20 == 4) && !(a == 0xED && b / 0x20 == 5)
    ensures [a, b, d] == Encode(c)
  {
    var x := (a - 0xE0) * 0x40 + (b - 0x80);
    assert x / 0x40 == a - 0xE0 && x % 0x40 == b - 0x80;
    var y := x * 0x40 + (d - 0x80);
    assert y / 0x40 == x && y % 0x40 == d - 0x80;
    assert y / 0x1000 == x / 0x40;
    c := y;
  }

  lemma FourBytes(a: byte, b: byte, d: byte, e: byte) returns (c: Scalar)
    requires StartsFour(a) && IsContinuation(b) && IsContinuation(d) && IsContinuation(e)
    requires !(a == 0xF0 && b / 0x10 == 8) && !(a == 0xF4 && b > 0x8F) && a <= 0xF4
    ensures [a, b, d, e] == Encode(c)
  {
    var x := (a - 0xF0) * 0x40 + (b - 0x80);
    assert x / 0x40 == a - 0xF0 && x % 0x40 == b - 0x80;
    var y := x * 0x40 + (d - 0x80);
    assert y / 0x40 == x && y % 0x40 == d - 0x80;
    var z := y * 0x40 + (e - 0x80);
    assert z / 0x40 == y && z % 0x40 == e - 0x80;
    assert z / 0x1000 == y / 0x40 && z / 0x4_0000 == x / 0x40;
    c := z;
  }

  /** An encoded scalar value is taken whole, whatever follows it. */
  lemma EncodedIsTaken(c: Scalar, rest: seq<byte>)
    ensures Take(Encode(c) + rest) == |Encode(c)|
  {
    if c < 0x80 {
    } else if c < 0x800 {
      TwoAreTaken(c, rest);
    } else if c < 0x1_0000 {
      ThreeAreTaken(c, rest);
    } else {
      FourAreTaken(c, rest);
    }
  }

  lemma TwoAreTaken(c: Scalar, rest: seq<byte>)
    requires 0x80 <= c < 0x800
    ensures Take(Encode(c) + rest) == 2
  {
    var s := Encode(c) + rest;
    assert IsContinuation(s[1]) && StartsTwo(s[0]);
  }

  lemma ThreeAreTaken(c: Scalar, rest: seq<byte>)
    requires 0x800 <= c < 0x1_0000
    ensures Take(Encode(c) + rest) == 3
  {
    var s := Encode(c) + rest;
    var x := c / 0x40;
    assert s[0] == 0xE0 + c / 0x1000 && s[1] == 0x80 + x % 0x40 && s[2] == 0x80 + c % 0x40;
    assert x / 0x40 == c / 0x1000;
    assert StartsThree(s[0]) && !StartsTwo(s[0]) && IsContinuation(s[1]) && IsContinuation(s[2]);
    assert s[0] == 0xE0 ==> x % 0x40 >= 0x20;
    assert s[0] == 0xED ==> x % 0x40 < 0x20;
  }

  lemma FourAreTaken(c: Scalar, rest: seq<byte>)
    requires 0x1_0000 <= c
    ensures Take(Encode(c) + rest) == 4
  {
    var s := Encode(c) + rest;
    var y := c / 0x1000;
    assert s[0] == 0xF0 + c / 0x4_0000 && s[1] == 0x80 + y % 0x40 && s[2] == 0x80 + c / 0x40 % 0x40 && s[3] == 0x80 + c % 0x40;
    assert y / 0x40 == c / 0x4_0000 && 0x10 <= y < 0x110;
    assert StartsFour(s[0]) && !StartsTwo(s[0]) && !StartsThree(s[0]);
    assert IsContinuation(s[1]) && IsContinuation(s[2]) && IsContinuation(s[3]);
    assert s[0] == 0xF0 ==> y % 0x40 >= 0x10;
    assert s[0] == 0xF4 ==> y % 0x40 < 0x10;
  }

  lemma {:induction false} AcceptsSound(s: seq<byte>) returns (cs: seq<Scalar>)
    requires Accepts(s)
    ensures EncodeAll(cs) == s
    decreases |s|
  {
    hide Take;
    hide Encode;
    if s == [] {
      cs := [];
    } else {
      var n := Take(s);
      var c := TakenIsEncoded(s);
      var more := AcceptsSound(s[n..]);
      cs := [c] + more;
      assert cs[1..] == more && s == s[..n] + s[n..];
    }
  }

  lemma {:induction false} AcceptsComplete(cs: seq<Scalar>)
    ensures Accepts(EncodeAll(cs))
    decreases |cs|
  {
    hide Take;
    hide Encode;
    if cs != [] {
      var more := EncodeAll(cs[1..]);
      AcceptsComplete(cs[1..]);
      EncodedIsTaken(cs[0], more);
      assert (Encode(cs[0]) + more)[|Encode(cs[0])|..] == more;
    }
  }

  /** A byte string is accepted if and only if it is the encoding of some sequence of scalar values. */
  lemma AcceptsExactly(s: seq<byte>)
    ensures Accepts(s) <==> exists cs: seq<Scalar> :: EncodeAll(cs) == s
  {
    if Accepts(s) {
      var cs := AcceptsSound(s);
    }
    forall cs: seq<Scalar> | EncodeAll(cs) == s ensures Accepts(s) {
      AcceptsComplete(cs);
    }
  }

  // ----- The validator -----

  lemma AsciiIsTaken(s: seq<byte>, i: nat)
    requires i < |s| && s[i] < 0x80
    ensures Accepts(s[i..]) <==> Accepts(s[i + 1..])
  {
    assert s[i..][1..] == s[i + 1..];
  }

  lemma FourAreAscii(raw: seq<bv8>, i: nat)
    requires i + 4 <= |raw| && HighBits(raw[i], raw[i + 1], raw[i + 2], raw[i + 3]) == 0
    ensures Accepts(Numbers(raw)[i..]) <==> Accepts(Numbers(raw)[i + 4..])
  {
    hide Accepts;
    hide HighBits;
    var s := Numbers(raw);
    FourAtOnce(raw[i], raw[i + 1], raw[i + 2], raw[i + 3]);
    AsciiIsTaken(s, i);
    AsciiIsTaken(s, i + 1);
    AsciiIsTaken(s, i + 2);
    AsciiIsTaken(s, i + 3);
  }

  /**
   `is_valid_utf8`: four ASCII bytes at a time while there are four, and never a byte outside the string. It accepts
   exactly the UTF-8 encodings.
   */
  method IsValidUtf8(raw: seq<bv8>) returns (ok: bool)
    ensures ok <==> exists cs: seq<Scalar> :: EncodeAll(cs) == Numbers(raw)
  {
    AcceptsExactly(Numbers(raw));
    ok := Validate(raw);
  }

  method Validate(raw: seq<bv8>) returns (ok: bool)
    ensures ok == Accepts(Numbers(raw))
  {
    hide Take;
    hide HighBits;
    hide Masked;
    ghost var s := Numbers(raw);
    var i := 0;
    assert s[0..] == s;
    while i != |raw|
      invariant 0 <= i <= |raw| && Accepts(s[i..]) == Accepts(s)
      decreases |raw| - i
    {
      if i + 4 <= |raw| && HighBits(raw[i], raw[i + 1], raw[i + 2], raw[i + 3]) == 0 {
        FourAreAscii(raw, i);
        i := i + 4;
      } else {
        while Masked(raw[i], 0x80) == 0
          invariant 0 <= i < |raw| && Accepts(s[i..]) == Accepts(s)
          decreases |raw| - i
        {
          OtherMasks(raw[i]);
          AsciiIsTaken(s, i);
          i := i + 1;
          if i == |raw| {
            return true;
          }
        }
        OtherMasks(raw[i]);
        var n := TakeMultibyte(raw, i);
        assert Accepts(s[i..]) <==> n > 0 && Accepts(s[i..][n..]);
        if n == 0 {
          return false;
        }
        assert s[i..][n..] == s[i + n..];
        i := i + n;
      }
    }
    ok := true;
  }

  /** The tests on a byte with its high bit set and those after it. */
  method TakeMultibyte(raw: seq<bv8>, i: nat) returns (n: nat)
    requires i < |raw| && raw[i] as int >= 0x80
    ensures n == Take(Numbers(raw)[i..])
  {
    hide Masked;
    hide IsContinuation;
    hide StartsTwo;
    hide StartsThree;
    hide StartsFour;
    Tests(raw[i]);
    ghost var s := Numbers(raw)[i..];
    assert s[0] == raw[i] as int;
    if Masked(raw[i], 0x60) == 0x40 {
      n := TakeTwo(raw, i);
    } else if Masked(raw[i], 0xf0) == 0xe0 {
      n := TakeThree(raw, i);
    } else if Masked(raw[i], 0xf8) == 0xf0 {
      n := TakeFour(raw, i);
    } else {
      n := 0;
    }
  }

  method TakeTwo(raw: seq<bv8>, i: nat) returns (n: nat)
    requires i < |raw| && raw[i] as int >= 0x80 && StartsTwo(raw[i] as int)
    ensures n == Take(Numbers(raw)[i..])
  {
    hide Masked;
    hide IsContinuation;
    hide StartsTwo;
    hide StartsThree;
    hide StartsFour;
    ghost var s := Numbers(raw)[i..];
    assert s[0] == raw[i] as int && (i + 1 < |raw| ==> s[1] == raw[i + 1] as int);
    hide Numbers;
    Tests(raw[i]);
    if i + 1 >= |raw| {
      return 0;
    }
    Tests(raw[i + 1]);
    if Masked(raw[i + 1], 0xc0) != 0x80 || Masked(raw[i], 0xfe) == 0xc0 {
      return 0;
    }
    n := 2;
  }

  method TakeThree(raw: seq<bv8>, i: nat) returns (n: nat)
    requires i < |raw| && raw[i] as int >= 0x80 && !StartsTwo(raw[i] as int) && StartsThree(raw[i] as int)
    ensures n == Take(Numbers(raw)[i..])
  {
    hide Masked;
    hide IsContinuation;
    hide StartsTwo;
    hide StartsThree;
    hide StartsFour;
    ghost var s := Numbers(raw)[i..];
    assert s[0] == raw[i] as int && (i + 2 < |raw| ==> s[1] == raw[i + 1] as int && s[2] == raw[i + 2] as int);
    hide Numbers;
    var a := raw[i];
    Tests(a);
    if i + 2 >= |raw| {
      return 0;
    }
    var b, c := raw[i + 1], raw[i + 2];
    Tests(b);
    Tests(c);
    if Masked(b, 0xc0) != 0x80 || Masked(c, 0xc0) != 0x80
       || (a == 0xE0 && Masked(b, 0xe0) == 0x80) || (a == 0xED && Masked(b, 0xe0) == 0xa0) {
      return 0;
    }
    n := 3;
  }

  method TakeFour(raw: seq<bv8>, i: nat) returns (n: nat)
    requires i < |raw| && raw[i] as int >= 0x80
    requires !StartsTwo(raw[i] as int) && !StartsThree(raw[i] as int) && StartsFour(raw[i] as int)
    ensures n == Take(Numbers(raw)[i..])
  {
    hide Masked;
    hide IsContinuation;
    hide StartsTwo;
    hide StartsThree;
    hide StartsFour;
    ghost var s := Numbers(raw)[i..];
    assert s[0] == raw[i] as int;
    assert i + 3 < |raw| ==> s[1] == raw[i + 1] as int && s[2] == raw[i + 2] as int && s[3] == raw[i + 3] as int;
    hide Numbers;
    var a := raw[i];
    Tests(a);
    if i + 3 >= |raw| {
      return 0;
    }
    var b, c, d := raw[i + 1], raw[i + 2], raw[i + 3];
    Tests(b);
    Tests(c);
    Tests(d);
    if Masked(b, 0xc0) != 0x80 || Masked(c, 0xc0) != 0x80 || Masked(d, 0xc0) != 0x80
       || (a == 0xF0 && Masked(b, 0xf0) == 0x80) || (a == 0xF4 && b > 0x8F) || a > 0xF4 {
      return 0;
    }
    n := 4;
  }

  /** All the tests that are made on one byte. */
  lemma Tests(x: bv8)
    ensures (Masked(x, 0xc0) == 0x80 <==> IsContinuation(x as int)) && (Masked(x, 0x60) == 0x40 <==> StartsTwo(x as int))
    ensures (Masked(x, 0xf0) == 0xe0 <==> StartsThree(x as int)) && (Masked(x, 0xf8) == 0xf0 <==> StartsFour(x as int))
    ensures (Masked(x, 0xfe) == 0xc0 <==> x as int / 2 == 0x60) && (Masked(x, 0xf0) == 0x80 <==> x as int / 0x10 == 8)
    ensures (Masked(x, 0xe0) == 0x80 <==> x as int / 0x20 == 4) && (Masked(x, 0xe0) == 0xa0 <==> x as int / 0x20 == 5)
    ensures (x == 0xE0 <==> x as int == 0xE0) && (x == 0xED <==> x as int == 0xED)
    ensures (x == 0xF0 <==> x as int == 0xF0) && (x == 0xF4 <==> x as int == 0xF4)
    ensures (x > 0x8F <==> x as int > 0x8F) && (x > 0xF4 <==> x as int > 0xF4)
  {
    LeadMasks(x);
    OtherMasks(x);
    Comparisons(x);
    hide Masked;
    hide IsContinuation;
    hide StartsTwo;
    hide StartsThree;
    hide StartsFour;
  }
}
