/** Base 64 (section 4 of RFC 4648): two encoders written differently, and a decoder that inverts both. */
module Base64 {
  import opened Arithmetic
  import opened Bytes

  const PAD: byte := 61
  const NUL: byte := 0

  /** What the decoder comes to: a value, the null result, or an index outside its table. */
  datatype Result<T> = Done(value: T) | MisplacedPad | OutOfTable

  // ----- The alphabet -----

  function Symbol(v: nat): (c: byte)
    requires v < 64
    ensures c != PAD && c != NUL && c < 128
  {
    if v < 26 then 65 + v else if v < 52 then 97 + (v - 26) else if v < 62 then 48 + (v - 52) else if v == 62 then 43 else 47
  }

  /** `DecodeTable`: -1 for white space and -2 for every other byte outside the alphabet. */
  function DecodeTable(c: byte): (v: int)
    ensures -2 <= v < 64
  {
    if 65 <= c <= 90 then c - 65
    else if 97 <= c <= 122 then c - 97 + 26
    else if 48 <= c <= 57 then c - 48 + 52
    else if c == 43 then 62
    else if c == 47 then 63
    else if c == 9 || c == 10 || c == 13 || c == 32 then -1
    else -2
  }

  lemma SymbolDecodes(v: nat)
    requires v < 64
    ensures DecodeTable(Symbol(v)) == v
  {
  }

  // ----- The alphabets, written out (tables 1 and 2 of RFC 4648) -----

  const UPPER := "ABCDEFGHIJKLMNOPQRSTUVWXYZ"
  const LOWER := "abcdefghijklmnopqrstuvwxyz"
  const ALPHABET := UPPER + LOWER + "0123456789" + "+/"
  const URL_ALPHABET := UPPER + LOWER + "0123456789" + "-_"

  lemma Upper(k: nat)
    requires k < 26
    ensures |UPPER| == 26 && UPPER[k] as int == 65 + k
  {
  }

  lemma Lower(k: nat)
    requires k < 26
    ensures |LOWER| == 26 && LOWER[k] as int == 97 + k
  {
  }

  lemma Digit(k: nat)
    requires k < 10
    ensures "0123456789"[k] as int == 48 + k
  {
  }

  /** The symbol of a value is at that place of the alphabet. */
  lemma SymbolIs(v: nat)
    requires v < 64
    ensures |ALPHABET| == 64 && Symbol(v) == ALPHABET[v] as int
    ensures |URL_ALPHABET| == 64 && UrlSymbol(v) == URL_ALPHABET[v] as int
  {
    assert |UPPER| == 26 && |LOWER| == 26;
    if v < 26 {
      Upper(v);
      assert ALPHABET[v] == UPPER[v] == URL_ALPHABET[v];
    } else if v < 52 {
      Lower(v - 26);
      assert ALPHABET[v] == LOWER[v - 26] == URL_ALPHABET[v];
    } else if v < 62 {
      Digit(v - 52);
      assert ALPHABET[v] == "0123456789"[v - 52] == URL_ALPHABET[v];
    } else {
      assert ALPHABET[v] == "+/"[v - 62] && URL_ALPHABET[v] == "-_"[v - 62];
    }
  }

  /** A byte decodes to a value exactly when it is at that place of the alphabet. */
  lemma DecodeTableIff(c: byte, v: nat)
    requires v < 64
    ensures |ALPHABET| == 64 && (DecodeTable(c) == v <==> ALPHABET[v] as int == c)
  {
    SymbolIs(v);
    hide ALPHABET;
    SymbolDecodes(v);
  }

  // ----- The encoding -----

  /** Sextet k of a 24-bit group, most significant first. */
  function Sextet(quad: nat, k: nat): (v: nat)
    requires quad < 0x100_0000 && k < 4
    ensures v < 64
  {
    if k == 0 then quad / 0x4_0000 else if k == 1 then quad / 0x1000 % 64 else if k == 2 then quad / 0x40 % 64 else quad % 64
  }

  function Quad(a: byte, b: byte, c: byte): (q: nat)
    ensures q < 0x100_0000
  {
    a * 0x1_0000 + b * 0x100 + c
  }

  function Symbols(quad: nat, n: nat): (s: seq<byte>)
    requires quad < 0x100_0000 && n <= 4
    ensures |s| == n
  {
    seq(n, k requires 0 <= k < n => Symbol(Sextet(quad, k)))
  }

  function Encoded(s: seq<byte>): (r: seq<byte>) {
    if |s| == 0 then []
    else if |s| == 1 then Symbols(Quad(s[0], 0, 0), 2) + [PAD, PAD]
    else if |s| == 2 then Symbols(Quad(s[0], s[1], 0), 3) + [PAD]
    else Symbols(Quad(s[0], s[1], s[2]), 4) + Encoded(s[3..])
  }

  /** Three whole bytes in front of the rest. */
  lemma EncodedGroup(s: seq<byte>, i: nat)
    requires i + 3 <= |s|
    ensures Encoded(s[i..]) == Symbols(Quad(s[i], s[i + 1], s[i + 2]), 4) + Encoded(s[i + 3..])
  {
    assert s[i..][3..] == s[i + 3..];
  }

  // ----- The URL-safe alphabet (section 5 of RFC 4648), without padding -----

  /** `MAP_URL_ENCODED` */
  function UrlSymbol(v: nat): (c: byte)
    requires v < 64
  {
    if v < 62 then Symbol(v) else if v == 62 then HYPHEN else 95
  }

  /** The URL-safe form of a standard encoding: - for +, _ for /, and no padding. */
  function UrlForm(s: seq<byte>): (r: seq<byte>) {
    if s == [] then []
    else (if s[0] == PAD then [] else if s[0] == 43 then [HYPHEN] else if s[0] == 47 then [95] else [s[0]]) + UrlForm(s[1..])
  }

  /** An encoding with the alphabet and padding of choice. */
  function Form(url: bool, s: seq<byte>): (r: seq<byte>) { if url then UrlForm(s) else s }

  function EncodedFor(url: bool, s: seq<byte>): (r: seq<byte>) { Form(url, Encoded(s)) }

  function SymbolFor(url: bool, v: nat): (c: byte)
    requires v < 64
  {
    if url then UrlSymbol(v) else Symbol(v)
  }

  lemma FormSymbol(url: bool, v: nat, rest: seq<byte>)
    requires v < 64
    ensures Form(url, [Symbol(v)] + rest) == [SymbolFor(url, v)] + Form(url, rest)
  {
    assert ([Symbol(v)] + rest)[1..] == rest;
  }

  lemma FormTwo(url: bool, v: nat, w: nat, rest: seq<byte>)
    requires v < 64 && w < 64
    ensures Form(url, [Symbol(v), Symbol(w)] + rest) == [SymbolFor(url, v), SymbolFor(url, w)] + Form(url, rest)
  {
    hide *;
    assert [Symbol(v), Symbol(w)] + rest == [Symbol(v)] + ([Symbol(w)] + rest);
    FormSymbol(url, v, [Symbol(w)] + rest);
    FormSymbol(url, w, rest);
  }

  lemma FormPads(url: bool)
    ensures Form(url, [PAD]) == (if url then [] else [PAD]) && Form(url, [PAD, PAD]) == if url then [] else [PAD, PAD]
  {
    assert [PAD][1..] == [] && [PAD, PAD][1..] == [PAD];
    assert UrlForm([]) == [] && UrlForm([PAD]) == [] + UrlForm([]) && UrlForm([PAD, PAD]) == [] + UrlForm([PAD]);
  }

  /** One whole group of the chosen encoding. */
  lemma GroupFor(url: bool, src: seq<byte>, i: nat)
    requires i + 3 <= |src|
    ensures var q := Quad(src[i], src[i + 1], src[i + 2]);
            EncodedFor(url, src[i..]) ==
              [SymbolFor(url, q / 0x4_0000), SymbolFor(url, q / 0x1000 % 64)]
              + ([SymbolFor(url, q / 0x40 % 64), SymbolFor(url, q % 64)] + EncodedFor(url, src[i + 3..]))
  {
    var q := Quad(src[i], src[i + 1], src[i + 2]);
    EncodedGroup(src, i);
    SymbolsAre(q);
    hide *;
    var a, b, c, d, rest := q / 0x4_0000, q / 0x1000 % 64, q / 0x40 % 64, q % 64, Encoded(src[i + 3..]);
    assert [Symbol(a), Symbol(b), Symbol(c), Symbol(d)] + rest == [Symbol(a), Symbol(b)] + ([Symbol(c), Symbol(d)] + rest);
    FormTwo(url, a, b, [Symbol(c), Symbol(d)] + rest);
    FormTwo(url, c, d, rest);
    FormOfEncoded(url, src[i..]);
    FormOfEncoded(url, src[i + 3..]);
  }

  lemma FormOfEncoded(url: bool, s: seq<byte>)
    ensures EncodedFor(url, s) == Form(url, Encoded(s))
  {
  }

  /** The last one or two bytes. */
  lemma LastFor(url: bool, s: seq<byte>)
    requires 1 <= |s| <= 2
    ensures var q := Quad(s[0], if |s| == 2 then s[1] else 0, 0);
            EncodedFor(url, s) ==
              [SymbolFor(url, q / 0x4_0000), SymbolFor(url, q / 0x1000 % 64)]
              + (if |s| == 2 then [SymbolFor(url, q / 0x40 % 64)] + (if url then [] else [PAD])
                 else if url then [] else [PAD, PAD])
  {
    var q := Quad(s[0], if |s| == 2 then s[1] else 0, 0);
    SymbolsAre(q);
    assert Encoded(s) == if |s| == 2 then Symbols(q, 3) + [PAD] else Symbols(q, 2) + [PAD, PAD];
    hide *;
    var a, b, c := q / 0x4_0000, q / 0x1000 % 64, q / 0x40 % 64;
    FormPads(url);
    FormOfEncoded(url, s);
    if |s| == 2 {
      assert [Symbol(a), Symbol(b), Symbol(c)] + [PAD] == [Symbol(a), Symbol(b)] + ([Symbol(c)] + [PAD]);
      FormTwo(url, a, b, [Symbol(c)] + [PAD]);
      FormSymbol(url, c, [PAD]);
    } else {
      FormTwo(url, a, b, [PAD, PAD]);
    }
  }

  /** `base64_encode`: shifts of a 24-bit group, a terminating NUL, and the length without it. */
  method EncodeByQuads(src: seq<byte>, url: bool) returns (dst: seq<byte>, length: nat)
    ensures dst == EncodedFor(url, src) + [NUL] && length == |EncodedFor(url, src)|
  {
    hide SymbolFor;
    hide EncodedFor;
    hide Quad;
    dst := [];
    var i := 0;
    assert src[0..] == src && [] + EncodedFor(url, src) == EncodedFor(url, src);
    while |src| - i >= 3
      invariant 0 <= i <= |src| && dst + EncodedFor(url, src[i..]) == EncodedFor(url, src)
    {
      var quad := Quad(src[i], src[i + 1], src[i + 2]);
      GroupFor(url, src, i);
      var front := [SymbolFor(url, quad / 0x4_0000), SymbolFor(url, quad / 0x1000 % 64)];
      var back := [SymbolFor(url, quad / 0x40 % 64), SymbolFor(url, quad % 64)];
      ghost var rest := EncodedFor(url, src[i + 3..]);
      assert dst + (front + (back + rest)) == dst + front + back + rest;
      dst := dst + front + back;
      i := i + 3;
    }
    var last := EncodeLast(src[i..], url);
    dst := dst + last;
    length := |dst|;
    dst := dst + [NUL];
  }

  /** The bytes after the last whole group. */
  method EncodeLast(s: seq<byte>, url: bool) returns (dst: seq<byte>)
    requires |s| < 3
    ensures dst == EncodedFor(url, s)
  {
    dst := [];
    if |s| != 0 {
      LastFor(url, s);
      hide SymbolFor;
      hide EncodedFor;
      var quad := Quad(s[0], 0, 0);
      if |s| == 2 {
        quad := Quad(s[0], s[1], 0);
        dst := [SymbolFor(url, quad / 0x4_0000), SymbolFor(url, quad / 0x1000 % 64)] + [SymbolFor(url, quad / 0x40 % 64)];
        if !url {
          dst := dst + [PAD];
        }
      } else {
        dst := [SymbolFor(url, quad / 0x4_0000), SymbolFor(url, quad / 0x1000 % 64)];
        if !url {
          dst := dst + [PAD, PAD];
        }
      }
    }
  }

  lemma SymbolsAre(quad: nat)
    requires quad < 0x100_0000
    ensures Symbols(quad, 2) == [Symbol(quad / 0x4_0000), Symbol(quad / 0x1000 % 64)]
    ensures Symbols(quad, 3) == [Symbol(quad / 0x4_0000), Symbol(quad / 0x1000 % 64), Symbol(quad / 0x40 % 64)]
    ensures Symbols(quad, 4)
         == [Symbol(quad / 0x4_0000), Symbol(quad / 0x1000 % 64), Symbol(quad / 0x40 % 64), Symbol(quad % 64)]
  {
  }

  /** The same sextets taken byte by byte. */
  lemma SextetsByByte(a: byte, b: byte, c: byte)
    ensures var q := Quad(a, b, c);
            && q / 0x4_0000 == a / 4
            && q / 0x1000 % 64 == a % 4 * 16 + b / 16
            && q / 0x40 % 64 == b % 16 * 4 + c / 64
            && q % 64 == c % 64
  {
    var q := Quad(a, b, c);
    var a0, a1, b0, b1, c0, c1 := a / 4, a % 4, b / 16, b % 16, c / 64, c % 64;
    DivModUnique(q, 0x4_0000, a0, a1 * 0x1_0000 + b * 0x100 + c);
    DivModUnique(q, 0x1000, a * 16 + b0, b1 * 0x100 + c);
    DivModUnique(a * 16 + b0, 64, a0, a1 * 16 + b0);
    DivModUnique(q, 0x40, a * 0x400 + b * 4 + c0, c1);
    DivModUnique(a * 0x400 + b * 4 + c0, 64, a * 16 + b0, b1 * 4 + c0);
  }

  lemma ByteGroup(s: seq<byte>, i: nat)
    requires i + 3 <= |s|
    ensures var a, b, c := s[i], s[i + 1], s[i + 2];
            Encoded(s[i..])
            == [Symbol(a / 4), Symbol(a % 4 * 16 + b / 16), Symbol(b % 16 * 4 + c / 64), Symbol(c % 64)] + Encoded(s[i + 3..])
  {
    hide *;
    EncodedGroup(s, i);
    SextetsByByte(s[i], s[i + 1], s[i + 2]);
    SymbolsAre(Quad(s[i], s[i + 1], s[i + 2]));
  }

  /** `Base64::Encode`: masks and shifts of single bytes. */
  method EncodeByBytes(str: seq<byte>) returns (result: seq<byte>)
    ensures result == Encoded(str)
  {
    hide Symbol;
    hide Encoded;
    result := [];
    var at := 0;
    assert str[0..] == str && [] + Encoded(str) == Encoded(str);
    while |str| - at > 2
      invariant 0 <= at <= |str| && result + Encoded(str[at..]) == Encoded(str)
    {
      var a, b, c := str[at], str[at + 1], str[at + 2];
      ByteGroup(str, at);
      result := result + [Symbol(a / 4), Symbol(a % 4 * 16 + b / 16), Symbol(b % 16 * 4 + c / 64), Symbol(c % 64)];
      at := at + 3;
    }
    var last := EncodeLastBytes(str[at..]);
    result := result + last;
  }

  method EncodeLastBytes(s: seq<byte>) returns (result: seq<byte>)
    requires |s| < 3
    ensures result == Encoded(s)
  {
    hide Symbols;
    hide Quad;
    result := [];
    if |s| > 0 {
      var a := s[0];
      if |s| % 3 == 1 {
        SextetsByByte(a, 0, 0);
        SymbolsAre(Quad(a, 0, 0));
        result := [Symbol(a / 4), Symbol(a % 4 * 16), PAD, PAD];
      } else if |s| % 3 == 2 {
        var b := s[1];
        SextetsByByte(a, b, 0);
        SymbolsAre(Quad(a, b, 0));
        result := [Symbol(a / 4), Symbol(a % 4 * 16 + b / 16), Symbol(b % 16 * 4), PAD];
      }
    }
  }

  // ----- The decoder -----

  /** The decoder between two characters: how many symbols it has seen, the bits carried over, the bytes so far. */
  datatype Decoder = Decoder(count: nat, bin: nat, out: seq<byte>)

  ghost predicate Valid(d: Decoder) {
    && d.bin < 256
    && (d.count % 4 == 1 ==> d.bin % 4 == 0)
    && (d.count % 4 == 2 ==> d.bin % 16 == 0)
    && (d.count % 4 == 3 ==> d.bin % 64 == 0)
  }

  /** A byte with room for the bits of v at each place. */
  lemma PutFits(bin: nat, v: nat)
    requires bin < 256 && v < 64
    ensures v * 4 % 4 == 0 && v % 16 * 16 % 16 == 0 && v % 4 * 64 % 64 == 0
    ensures v * 4 < 256 && v % 16 * 16 < 256 && v % 4 * 64 < 256
    ensures bin % 4 == 0 ==> bin + v / 16 < 256
    ensures bin % 16 == 0 ==> bin + v / 4 < 256
    ensures bin % 64 == 0 ==> bin + v < 256
  {
  }

  lemma CountOn(n: nat)
    ensures (n + 1) % 4 == (n % 4 + 1) % 4
  {
  }

  /** One symbol of value v. The bits that are combined do not overlap, so "or" is addition. */
  function Put(d: Decoder, v: nat): (r: Decoder)
    requires Valid(d) && v < 64
    ensures Valid(r)
  {
    PutFits(d.bin, v);
    CountOn(d.count);
    if d.count % 4 == 0 then Decoder(d.count + 1, v * 4, d.out)
    else if d.count % 4 == 1 then Decoder(d.count + 1, v % 16 * 16, d.out + [d.bin + v / 16])
    else if d.count % 4 == 2 then Decoder(d.count + 1, v % 4 * 64, d.out + [d.bin + v / 4])
    else Decoder(d.count + 1, d.bin + v, d.out + [d.bin + v])
  }

  /**
   The decoder on a string: padding and bytes outside the alphabet are skipped up to the first NUL. With signed chars a
   byte of 128 or more is a negative index.
   */
  function Scan(s: seq<byte>, d: Decoder): (r: Result<Decoder>)
    requires Valid(d)
    decreases |s|
  {
    if s == [] || s[0] == NUL then Done(d)
    else if s[0] == PAD then
      if (|s| == 1 || s[1] != PAD) && d.count % 4 == 1 then MisplacedPad else Scan(s[1..], d)
    else if s[0] >= 128 then OutOfTable
    else
      var v := DecodeTable(s[0]);
      if v < 0 then Scan(s[1..], d) else Scan(s[1..], Put(d, v))
  }

  function Decoded(s: seq<byte>): (r: Result<seq<byte>>) {
    match Scan(s, Decoder(0, 0, []))
    case Done(d) => Done(d.out)
    case MisplacedPad => MisplacedPad
    case OutOfTable => OutOfTable
  }

  /** `Base64::Decode` */
  method Decode(str: seq<byte>) returns (r: Result<seq<byte>>)
    ensures r == Decoded(str)
  {
    var d := Decoder(0, 0, []);
    assert Valid(d);
    hide DecodeTable;
    hide Put;
    hide Valid;
    var at := 0;
    assert str[0..] == str;
    while at < |str| && str[at] != NUL
      invariant 0 <= at <= |str| && Valid(d) && Scan(str[at..], d) == Scan(str, Decoder(0, 0, []))
    {
      var ch := str[at];
      ghost var s := str[at..];
      assert s[1..] == str[at + 1..] && s[0] == ch && (|s| > 1 ==> s[1] == str[at + 1]);
      at := at + 1;
      if ch == PAD {
        if (at == |str| || str[at] != PAD) && d.count % 4 == 1 {
          return MisplacedPad;
        }
      } else if ch >= 128 {
        return OutOfTable;
      } else {
        var v := DecodeTable(ch);
        if v >= 0 {
          d := Put(d, v);
        }
      }
    }
    r := Done(d.out);
  }

  // ----- When the table is left -----

  predicate IsSymbol(c: byte) { c != PAD && c < 128 && DecodeTable(c) >= 0 }

  /** How many symbols a string holds. */
  function Count(s: seq<byte>): (n: nat) {
    if s == [] then 0 else (if IsSymbol(s[0]) then 1 else 0) + Count(s[1..])
  }

  /** After `n` symbols, the decoder does not look past offset j: a NUL, or a pad right after the first of a group. */
  predicate StopsAt(s: seq<byte>, n: nat, j: int)
    requires 0 <= j < |s|
  {
    s[j] == NUL || MisplacedAt(s, n, j)
  }

  /** The last pad of a run, right after the first symbol of a group. */
  predicate MisplacedAt(s: seq<byte>, n: nat, j: int)
    requires 0 <= j < |s|
  {
    s[j] == PAD && (j + 1 == |s| || s[j + 1] != PAD) && (n + Count(s[..j])) % 4 == 1
  }

  /** A byte of 128 or more that the decoder comes to. */
  ghost predicate Reached(s: seq<byte>, n: nat, k: int) {
    0 <= k < |s| && s[k] >= 128 && forall j :: 0 <= j < k ==> !StopsAt(s, n, j)
  }

  lemma StopsLater(s: seq<byte>, n: nat, j: nat)
    requires j + 1 < |s|
    ensures StopsAt(s, n, j + 1) == StopsAt(s[1..], n + if IsSymbol(s[0]) then 1 else 0, j)
  {
    hide IsSymbol;
    assert s[..j + 1][1..] == s[1..][..j];
  }

  lemma ReachedLater(s: seq<byte>, n: nat, k: int)
    requires s != [] && !StopsAt(s, n, 0) && s[0] < 128
    ensures Reached(s, n, k) <==> Reached(s[1..], n + if IsSymbol(s[0]) then 1 else 0, k - 1)
  {
    hide StopsAt;
    hide IsSymbol;
    var n' := n + if IsSymbol(s[0]) then 1 else 0;
    if 0 < k < |s| {
      forall j | 0 <= j < k - 1 ensures StopsAt(s[1..], n', j) == StopsAt(s, n, j + 1) {
        StopsLater(s, n, j);
      }
      assert forall j :: 0 < j < k ==> StopsAt(s, n, j) == StopsAt(s[1..], n', j - 1);
    }
  }

  lemma {:induction false} ScanLeavesTableIff(s: seq<byte>, d: Decoder)
    requires Valid(d)
    ensures Scan(s, d).OutOfTable? <==> exists k :: Reached(s, d.count, k)
    decreases |s|
  {
    hide Valid;
    if s == [] {
    } else if StopsAt(s, d.count, 0) {
      assert s[..0] == [];
      assert forall k :: Reached(s, d.count, k) ==> k == 0;
    } else if s[0] >= 128 {
      assert Reached(s, d.count, 0);
    } else {
      assert s[..0] == [];
      var d' := if IsSymbol(s[0]) then Put(d, DecodeTable(s[0])) else d;
      assert Scan(s, d) == Scan(s[1..], d');
      ScanLeavesTableIff(s[1..], d');
      hide Scan;
      forall k ensures Reached(s, d.count, k) <==> Reached(s[1..], d'.count, k - 1) {
        ReachedLater(s, d.count, k);
      }
      if k :| Reached(s[1..], d'.count, k) { assert Reached(s, d.count, k + 1); }
    }
  }

  /**
   The table is left exactly when a byte of 128 or more comes before the first NUL and before the first misplaced pad;
   so never when there is no such byte before the first NUL.
   */
  lemma LeavesTableIff(s: seq<byte>)
    ensures Decoded(s).OutOfTable? <==> exists k :: Reached(s, 0, k)
  {
    ScanLeavesTableIff(s, Decoder(0, 0, []));
  }

  /** A misplaced pad that the decoder comes to. */
  ghost predicate PadReached(s: seq<byte>, n: nat, k: int) {
    0 <= k < |s| && MisplacedAt(s, n, k) && forall j :: 0 <= j < k ==> !StopsAt(s, n, j) && s[j] < 128
  }

  lemma MisplacedLater(s: seq<byte>, n: nat, j: nat)
    requires j + 1 < |s|
    ensures MisplacedAt(s, n, j + 1) == MisplacedAt(s[1..], n + if IsSymbol(s[0]) then 1 else 0, j)
  {
    hide IsSymbol;
    assert s[..j + 1][1..] == s[1..][..j];
  }

  lemma PadReachedLater(s: seq<byte>, n: nat, k: int)
    requires s != [] && !StopsAt(s, n, 0) && s[0] < 128
    ensures PadReached(s, n, k) <==> PadReached(s[1..], n + if IsSymbol(s[0]) then 1 else 0, k - 1)
  {
    var n' := n + if IsSymbol(s[0]) then 1 else 0;
    if 0 < k < |s| {
      MisplacedLater(s, n, k - 1);
      hide StopsAt;
      hide MisplacedAt;
      hide IsSymbol;
      forall j | 0 <= j < k - 1 ensures StopsAt(s[1..], n', j) == StopsAt(s, n, j + 1) {
        StopsLater(s, n, j);
      }
      assert forall j :: 0 < j < k ==> StopsAt(s, n, j) == StopsAt(s[1..], n', j - 1) && s[j] == s[1..][j - 1];
    }
  }

  lemma {:induction false} ScanMisplacesIff(s: seq<byte>, d: Decoder)
    requires Valid(d)
    ensures Scan(s, d).MisplacedPad? <==> exists k :: PadReached(s, d.count, k)
    decreases |s|
  {
    hide Valid;
    if s == [] {
    } else if StopsAt(s, d.count, 0) {
      assert s[..0] == [];
      assert forall k :: PadReached(s, d.count, k) ==> k == 0;
      if s[0] != NUL { assert PadReached(s, d.count, 0); }
    } else if s[0] >= 128 {
    } else {
      assert s[..0] == [];
      var d' := if IsSymbol(s[0]) then Put(d, DecodeTable(s[0])) else d;
      assert Scan(s, d) == Scan(s[1..], d');
      ScanMisplacesIff(s[1..], d');
      hide Scan;
      forall k ensures PadReached(s, d.count, k) <==> PadReached(s[1..], d'.count, k - 1) {
        PadReachedLater(s, d.count, k);
      }
      if k :| PadReached(s[1..], d'.count, k) { assert PadReached(s, d.count, k + 1); }
    }
  }

  /** The null result is given exactly when a misplaced pad comes before the first NUL and the first byte of 128 or more. */
  lemma MisplacedPadIff(s: seq<byte>)
    ensures Decoded(s).MisplacedPad? <==> exists k :: PadReached(s, 0, k)
  {
    ScanMisplacesIff(s, Decoder(0, 0, []));
  }

  /** A byte outside the table, and one that the decoder never comes to. */
  lemma LeavesTableExamples()
    ensures Decoded([200]).OutOfTable? && Decoded([NUL, 200]) == Done([])
  {
  }

  // ----- What is decoded -----

  type sextet = x: int | 0 <= x < 64

  /** The values of the symbols before the first NUL; everything else is a separator. */
  function Values(s: seq<byte>): (vs: seq<sextet>) {
    if s == [] || s[0] == NUL then []
    else (if IsSymbol(s[0]) then [DecodeTable(s[0])] else []) + Values(s[1..])
  }

  /** The byte that two neighbouring sextets of a group complete, the second at place k of the group. */
  function Completed(v: sextet, w: sextet, k: nat): (b: byte)
    requires 1 <= k < 4
  {
    if k == 1 then v * 4 + w / 16 else if k == 2 then v % 16 * 16 + w / 4 else v % 4 * 64 + w
  }

  /** Three bytes from four sextets. */
  function Group(vs: seq<sextet>): (r: seq<byte>)
    requires |vs| >= 4
  {
    [Completed(vs[0], vs[1], 1), Completed(vs[1], vs[2], 2), Completed(vs[2], vs[3], 3)]
  }

  /** The whole bytes of joined sextets: four give three bytes, and two or three at the end give one or two. */
  function Whole(vs: seq<sextet>): (r: seq<byte>) {
    if |vs| < 2 then []
    else if |vs| == 2 then [Completed(vs[0], vs[1], 1)]
    else if |vs| == 3 then [Completed(vs[0], vs[1], 1), Completed(vs[1], vs[2], 2)]
    else Group(vs) + Whole(vs[4..])
  }

  /** What the next sextet adds. */
  function Added(vs: seq<sextet>, w: sextet): (r: seq<byte>) {
    if |vs| % 4 == 0 then [] else [Completed(vs[|vs| - 1], w, |vs| % 4)]
  }

  lemma {:induction false} WholeSnoc(vs: seq<sextet>, w: sextet)
    ensures Whole(vs + [w]) == Whole(vs) + Added(vs, w)
    decreases |vs|
  {
    if |vs| >= 4 {
      WholeSnoc(vs[4..], w);
      AddedLater(vs, w);
      assert (vs + [w])[4..] == vs[4..] + [w] && Group(vs + [w]) == Group(vs);
      hide Added;
      hide Group;
      assert Group(vs) + (Whole(vs[4..]) + Added(vs[4..], w)) == Group(vs) + Whole(vs[4..]) + Added(vs[4..], w);
    } else {
      hide Completed;
      ShortSnoc(vs, w);
    }
  }

  lemma AddedLater(vs: seq<sextet>, w: sextet)
    requires |vs| >= 4
    ensures Added(vs[4..], w) == Added(vs, w)
  {
    hide Completed;
    assert |vs| > 4 ==> vs[4..][|vs[4..]| - 1] == vs[|vs| - 1];
  }

  lemma ShortSnoc(vs: seq<sextet>, w: sextet)
    requires |vs| < 4
    ensures Whole(vs + [w]) == Whole(vs) + Added(vs, w)
  {
    hide *;
    if |vs| == 0 {
      Snoc0(vs, w);
    } else if |vs| == 1 {
      Snoc1(vs, w);
    } else if |vs| == 2 {
      Snoc2(vs, w);
    } else {
      Snoc3(vs, w);
    }
  }

  lemma Snoc0(vs: seq<sextet>, w: sextet)
    requires |vs| == 0
    ensures Whole(vs + [w]) == Whole(vs) + Added(vs, w)
  {
  }

  lemma Snoc1(vs: seq<sextet>, w: sextet)
    requires |vs| == 1
    ensures Whole(vs + [w]) == Whole(vs) + Added(vs, w)
  {
    hide Completed;
    var us := vs + [w];
    assert us[0] == vs[0] && us[1] == w;
    assert Whole(us) == [Completed(vs[0], w, 1)];
    assert Added(vs, w) == [Completed(vs[0], w, 1)];
  }

  lemma Snoc2(vs: seq<sextet>, w: sextet)
    requires |vs| == 2
    ensures Whole(vs + [w]) == Whole(vs) + Added(vs, w)
  {
    hide Completed;
    var us := vs + [w];
    assert us[0] == vs[0] && us[1] == vs[1] && us[2] == w;
    assert Whole(us) == [Completed(vs[0], vs[1], 1), Completed(vs[1], w, 2)];
    assert Added(vs, w) == [Completed(vs[1], w, 2)];
  }

  lemma Snoc3(vs: seq<sextet>, w: sextet)
    requires |vs| == 3
    ensures Whole(vs + [w]) == Whole(vs) + Added(vs, w)
  {
    hide Completed;
    var us := vs + [w];
    assert us[0] == vs[0] && us[1] == vs[1] && us[2] == vs[2] && us[3] == w;
    FourAreGroup(us);
    assert Whole(vs) == [Completed(vs[0], vs[1], 1), Completed(vs[1], vs[2], 2)];
    assert Added(vs, w) == [Completed(vs[2], w, 3)];
  }

  lemma FourAreGroup(us: seq<sextet>)
    requires |us| == 4
    ensures Whole(us) == Group(us)
  {
    hide Completed;
    assert us[4..] == [] && Whole([]) == [] && Group(us) + [] == Group(us);
  }

  lemma PutCount(d: Decoder, v: nat)
    requires Valid(d) && v < 64
    ensures Put(d, v).count == d.count + 1
  {
  }

  /** The decoder after these sextets. */
  function PutAll(vs: seq<sextet>): (d: Decoder)
    ensures Valid(d) && d.count == |vs|
    decreases |vs|
  {
    if vs == [] then Decoder(0, 0, [])
    else
      var d := PutAll(vs[..|vs| - 1]);
      assert Put(d, vs[|vs| - 1]).count == |vs| by { PutCount(d, vs[|vs| - 1]); }
      hide Put;
      Put(d, vs[|vs| - 1])
  }

  /** The bits of a sextet at place k that no byte has yet. */
  function Unused(v: int, k: nat): (bits: int) {
    if k == 0 then v * 4 else if k == 1 then v % 16 * 16 else v % 4 * 64
  }

  lemma {:induction false} PutAllIsWhole(vs: seq<sextet>)
    ensures PutAll(vs).out == Whole(vs)
    ensures |vs| % 4 != 0 ==> PutAll(vs).bin == Unused(vs[|vs| - 1], |vs| % 4 - 1)
    decreases |vs|
  {
    if vs != [] {
      var us, w := vs[..|vs| - 1], vs[|vs| - 1];
      PutAllIsWhole(us);
      WholeSnoc(us, w);
      assert us + [w] == vs;
      hide Whole;
      hide PutAll;
      PutAdds(PutAll(us), us, w);
      assert PutAll(vs) == Put(PutAll(us), w) by { PutAllSnoc(us, w); }
    }
  }

  lemma PutAllSnoc(us: seq<sextet>, w: sextet)
    ensures PutAll(us + [w]) == Put(PutAll(us), w)
  {
    hide Put;
    assert (us + [w])[..|us|] == us;
  }

  lemma PutAdds(d: Decoder, us: seq<sextet>, w: sextet)
    requires Valid(d) && d.count == |us| && (|us| % 4 != 0 ==> d.bin == Unused(us[|us| - 1], |us| % 4 - 1))
    ensures Put(d, w).out == d.out + Added(us, w)
    ensures (|us| + 1) % 4 != 0 ==> Put(d, w).bin == Unused(w, (|us| + 1) % 4 - 1)
  {
    CountOn(|us|);
    var k := |us| % 4;
    assert k == 0 ==> Added(us, w) == [] && d.out + [] == d.out;
    assert k > 0 ==> Added(us, w) == [d.bin + (if k == 1 then w / 16 else if k == 2 then w / 4 else w)];
  }

  lemma ScanStep(s: seq<byte>, d: Decoder)
    requires Valid(d) && Scan(s, d).Done?
    ensures s == [] || s[0] == NUL ==> Scan(s, d) == Done(d)
    ensures s != [] && s[0] != NUL ==> Scan(s, d) == Scan(s[1..], if IsSymbol(s[0]) then Put(d, DecodeTable(s[0])) else d)
  {
    hide DecodeTable;
    hide Put;
    hide Valid;
  }

  lemma {:induction false} ScanIsPutAll(s: seq<byte>, vs: seq<sextet>)
    requires Scan(s, PutAll(vs)).Done?
    ensures Scan(s, PutAll(vs)).value == PutAll(vs + Values(s))
    decreases |s|
  {
    ScanStep(s, PutAll(vs));
    ValuesStep(s);
    hide Scan;
    hide Values;
    hide IsSymbol;
    hide DecodeTable;
    hide Put;
    hide PutAll;
    if s == [] || s[0] == NUL {
      assert vs + Values(s) == vs;
    } else if IsSymbol(s[0]) {
      var v := DecodeTable(s[0]);
      PutAllSnoc(vs, v);
      ScanIsPutAll(s[1..], vs + [v]);
      assert vs + [v] + Values(s[1..]) == vs + ([v] + Values(s[1..]));
    } else {
      ScanIsPutAll(s[1..], vs);
    }
  }

  lemma ValuesStep(s: seq<byte>)
    ensures s == [] || s[0] == NUL ==> Values(s) == []
    ensures s != [] && s[0] != NUL && IsSymbol(s[0]) ==> 0 <= DecodeTable(s[0]) < 64 && Values(s) == [DecodeTable(s[0])] + Values(s[1..])
    ensures s != [] && s[0] != NUL && !IsSymbol(s[0]) ==> Values(s) == Values(s[1..])
  {
    hide DecodeTable;
    assert s != [] ==> [] + Values(s[1..]) == Values(s[1..]);
  }

  /** What decoding any string gives, when it gives bytes: the whole bytes of its sextets, whatever stands between them. */
  lemma DecodedIsWhole(s: seq<byte>)
    ensures Decoded(s).Done? ==> Decoded(s).value == Whole(Values(s))
  {
    assert PutAll([]) == Decoder(0, 0, []);
    if Decoded(s).Done? {
      ScanIsPutAll(s, []);
      assert [] + Values(s) == Values(s);
      PutAllIsWhole(Values(s));
    }
  }

  // ----- The round trip -----

  lemma ScanSymbol(v: nat, rest: seq<byte>, d: Decoder)
    requires Valid(d) && v < 64
    ensures Scan([Symbol(v)] + rest, d) == Scan(rest, Put(d, v))
  {
    SymbolDecodes(v);
    var s := [Symbol(v)] + rest;
    assert s[1..] == rest && s[0] == Symbol(v);
    hide DecodeTable;
    hide Put;
  }

  lemma ScanPads(d: Decoder)
    requires Valid(d) && d.count % 4 != 1
    ensures Scan([PAD], d) == Done(d) && Scan([PAD, PAD], d) == Done(d)
  {
    assert [PAD][1..] == [] && [PAD, PAD][1..] == [PAD];
  }

  lemma ScanTwoSymbols(v0: nat, v1: nat, rest: seq<byte>, d: Decoder)
    requires Valid(d) && v0 < 64 && v1 < 64
    ensures Scan([Symbol(v0), Symbol(v1)] + rest, d) == Scan(rest, Put(Put(d, v0), v1))
  {
    hide *;
    assert [Symbol(v0), Symbol(v1)] + rest == [Symbol(v0)] + ([Symbol(v1)] + rest);
    ScanSymbol(v0, [Symbol(v1)] + rest, d);
    ScanSymbol(v1, rest, Put(d, v0));
  }

  lemma SymbolsOf(a: byte, b: byte, c: byte)
    ensures Symbols(Quad(a, b, c), 2) == [Symbol(a / 4), Symbol(a % 4 * 16 + b / 16)]
    ensures Symbols(Quad(a, b, c), 3) == [Symbol(a / 4), Symbol(a % 4 * 16 + b / 16)] + [Symbol(b % 16 * 4 + c / 64)]
    ensures Symbols(Quad(a, b, c), 4)
         == [Symbol(a / 4), Symbol(a % 4 * 16 + b / 16)] + [Symbol(b % 16 * 4 + c / 64), Symbol(c % 64)]
  {
    hide *;
    SextetsByByte(a, b, c);
    SymbolsAre(Quad(a, b, c));
  }

  /** Four symbols give the three bytes back. */
  lemma ScanGroup(a: byte, b: byte, c: byte, rest: seq<byte>, d: Decoder) returns (d': Decoder)
    requires Valid(d) && d.count % 4 == 0
    ensures Valid(d') && d'.count == d.count + 4 && d'.out == d.out + [a, b, c]
    ensures Scan(Symbols(Quad(a, b, c), 4) + rest, d) == Scan(rest, d')
  {
    hide *;
    var v0, v1, v2, v3 := a / 4, a % 4 * 16 + b / 16, b % 16 * 4 + c / 64, c % 64;
    var front, back := [Symbol(v0), Symbol(v1)], [Symbol(v2), Symbol(v3)];
    SymbolsOf(a, b, c);
    ThreeBytes(a, b, c, d);
    assert front + back + rest == front + (back + rest);
    ScanTwoSymbols(v0, v1, back + rest, d);
    ScanTwoSymbols(v2, v3, rest, Put(Put(d, v0), v1));
    d' := Put(Put(Put(Put(d, v0), v1), v2), v3);
  }

  lemma ThreeBytes(a: byte, b: byte, c: byte, d: Decoder)
    requires Valid(d) && d.count % 4 == 0
    ensures var d2 := Put(Put(d, a / 4), a % 4 * 16 + b / 16);
            && d2.count == d.count + 2 && d2.out == d.out + [a]
            && var d3 := Put(d2, b % 16 * 4 + c / 64);
               && d3.count == d.count + 3 && d3.out == d.out + [a, b]
               && var d4 := Put(d3, c % 64);
                  d4.count == d.count + 4 && d4.out == d.out + [a, b, c]
  {
    assert (a % 4 * 16 + b / 16) / 16 == a % 4 && (a % 4 * 16 + b / 16) % 16 == b / 16;
    assert (b % 16 * 4 + c / 64) / 4 == b % 16 && (b % 16 * 4 + c / 64) % 4 == c / 64;
    assert d.out + [a] + [b] == d.out + [a, b] && d.out + [a, b] + [c] == d.out + [a, b, c];
  }

  lemma ScanOne(a: byte, d: Decoder)
    requires Valid(d) && d.count % 4 == 0
    ensures var r := Scan(Symbols(Quad(a, 0, 0), 2) + [PAD, PAD], d); r.Done? && r.value.out == d.out + [a]
  {
    hide *;
    var v0, v1 := a / 4, a % 4 * 16 + 0 / 16;
    SymbolsOf(a, 0, 0);
    ThreeBytes(a, 0, 0, d);
    ScanTwoSymbols(v0, v1, [PAD, PAD], d);
    ScanPads(Put(Put(d, v0), v1));
  }

  lemma ScanTwo(a: byte, b: byte, d: Decoder)
    requires Valid(d) && d.count % 4 == 0
    ensures var r := Scan(Symbols(Quad(a, b, 0), 3) + [PAD], d); r.Done? && r.value.out == d.out + [a, b]
  {
    hide *;
    var v0, v1, v2 := a / 4, a % 4 * 16 + b / 16, b % 16 * 4 + 0 / 64;
    SymbolsOf(a, b, 0);
    ThreeBytes(a, b, 0, d);
    var d2 := Put(Put(d, v0), v1);
    assert [Symbol(v0), Symbol(v1)] + [Symbol(v2)] + [PAD] == [Symbol(v0), Symbol(v1)] + ([Symbol(v2)] + [PAD]);
    ScanTwoSymbols(v0, v1, [Symbol(v2)] + [PAD], d);
    ScanSymbol(v2, [PAD], d2);
    ScanPads(Put(d2, v2));
  }

  lemma {:induction false} ScanEncoded(s: seq<byte>, d: Decoder)
    requires Valid(d) && d.count % 4 == 0
    ensures Scan(Encoded(s), d).Done? && Scan(Encoded(s), d).value.out == d.out + s
    decreases |s|
  {
    hide Symbols;
    hide Quad;
    hide Valid;
    if |s| == 0 {
      assert d.out + s == d.out;
    } else if |s| == 1 {
      hide Scan;
      ScanOne(s[0], d);
      assert s == [s[0]];
    } else if |s| == 2 {
      hide Scan;
      ScanTwo(s[0], s[1], d);
      assert s == [s[0], s[1]];
    } else {
      hide Scan;
      var d' := ScanGroup(s[0], s[1], s[2], Encoded(s[3..]), d);
      ScanEncoded(s[3..], d');
      assert d.out + [s[0], s[1], s[2]] + s[3..] == d.out + s;
    }
  }

  /** Decoding inverts encoding, for every byte string; what the encoders print is in the decoder's table. */
  lemma RoundTrip(s: seq<byte>)
    ensures Decoded(Encoded(s)) == Done(s)
  {
    ScanEncoded(s, Decoder(0, 0, []));
    assert [] + s == s;
  }
}
