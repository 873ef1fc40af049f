/**
 The SHA-1 transform as it is written: a 16-word schedule that is overwritten in place (section 6.1.3 of FIPS 180-4)
 and rounds whose registers change names instead of moving.
 */
module Sha1 {
  import opened Sha1Spec

  function Rol(value: bv32, bits: nat): (r: bv32)
    requires 0 < bits < 32
  {
    (value << bits) | (value >> (32 - bits))
  }

  lemma RolIsRotate(x: bv32)
    ensures Rol(x, 1) == x.RotateLeft(1) && Rol(x, 5) == x.RotateLeft(5) && Rol(x, 30) == x.RotateLeft(30)
  {
  }

  lemma Choices(w: bv32, x: bv32, y: bv32)
    ensures (w & (x ^ y)) ^ y == Ch(w, x, y)
    ensures ((w | x) & y) | (w & x) == Maj(w, x, y)
  {
  }

  // ----- The schedule in place -----

  /** The index of the newest word at slot j once words up to t - 1 are there. */
  function Newest(t: nat, j: nat): (s: nat)
    requires 16 <= t && j < 16
    ensures t - 16 <= s < t && s % 16 == j
  {
    if j < t % 16 then t - t % 16 + j else t - t % 16 - 16 + j
  }

  /** Slot j holds the newest word of the 80-word schedule that belongs there. */
  ghost predicate Window(block: seq<bv32>, m: Block, t: nat)
    requires 16 <= t
  {
    |block| == 16 && forall j :: 0 <= j < 16 ==> block[j] == W(m, Newest(t, j))
  }

  function Mix(a: bv32, b: bv32, c: bv32, d: bv32): (r: bv32) { a ^ b ^ c ^ d }

  function Blk(block: seq<bv32>, i: nat): (r: bv32)
    requires |block| == 16 && i < 16
  {
    Rol(Mix(block[(i + 13) % 16], block[(i + 8) % 16], block[(i + 2) % 16], block[i]), 1)
  }

  lemma FirstWindow(m: Block)
    ensures Window(m, m, 16)
  {
    forall j | 0 <= j < 16 ensures m[j] == W(m, Newest(16, j)) {
      assert Newest(16, j) == j;
    }
  }

  lemma NewestAt(t: nat)
    requires 16 <= t
    ensures Newest(t, (t % 16 + 13) % 16) == t - 3 && Newest(t, (t % 16 + 8) % 16) == t - 8
    ensures Newest(t, (t % 16 + 2) % 16) == t - 14 && Newest(t, t % 16) == t - 16
  {
  }

  /** Word t takes the slot of word t - 16. */
  lemma NewestNext(t: nat, j: nat)
    requires 16 <= t && j < 16
    ensures Newest(t + 1, j) == if j == t % 16 then t else Newest(t, j)
  {
  }

  lemma SlotIs(block: seq<bv32>, m: Block, t: nat, j: nat, k: nat)
    requires 16 <= t && Window(block, m, t) && j < 16 && Newest(t, j) == k
    ensures block[j] == W(m, k)
  {
  }

  /** The recurrence of the 80-word schedule. */
  lemma WordIs(m: Block, t: nat)
    requires 16 <= t
    ensures W(m, t) == Rol(Mix(W(m, t - 3), W(m, t - 8), W(m, t - 14), W(m, t - 16)), 1)
  {
    RolIsRotate(W(m, t - 3) ^ W(m, t - 8) ^ W(m, t - 14) ^ W(m, t - 16));
    hide Rol;
  }

  /** The word computed in place is the word of the 80-word schedule. */
  lemma BlkIsW(block: seq<bv32>, m: Block, t: nat)
    requires 16 <= t && Window(block, m, t)
    ensures Blk(block, t % 16) == W(m, t)
    ensures Window(block[t % 16 := W(m, t)], m, t + 1)
  {
    WindowNext(block, m, t);
    assert |block| == 16;
    hide Window;
    hide Mix;
    hide W;
    hide Rol;
    hide Newest;
    var i := t % 16;
    NewestAt(t);
    SlotIs(block, m, t, (i + 13) % 16, t - 3);
    SlotIs(block, m, t, (i + 8) % 16, t - 8);
    SlotIs(block, m, t, (i + 2) % 16, t - 14);
    SlotIs(block, m, t, i, t - 16);
    WordIs(m, t);
  }

  lemma WindowNext(block: seq<bv32>, m: Block, t: nat)
    requires 16 <= t && Window(block, m, t)
    ensures Window(block[t % 16 := W(m, t)], m, t + 1)
  {
    hide W;
    NewestEach(t);
    hide Newest;
  }

  lemma NewestEach(t: nat)
    requires 16 <= t
    ensures forall j {:trigger Newest(t + 1, j)} :: 0 <= j < 16 ==> Newest(t + 1, j) == if j == t % 16 then t else Newest(t, j)
  {
    forall j: nat {:trigger Newest(t + 1, j)} | j < 16 ensures Newest(t + 1, j) == if j == t % 16 then t else Newest(t, j) {
      NewestNext(t, j);
    }
  }

  // ----- The rounds -----

  /** z += f + block[i] + k + rol(v, 5) */
  function Accumulate(z: bv32, f: bv32, word: bv32, k: bv32, left5: bv32): (r: bv32) { z + (f + word + k + left5) }

  lemma AccumulateIsSum(a: bv32, f: bv32, e: bv32, k: bv32, w: bv32)
    ensures Sum(a, f, e, k, w) == Accumulate(e, f, w, k, a)
  {
  }

  /** One round: `w` and `z` change, and the registers are then read as (z, v, w, x, y). */
  lemma RoundInPlace(t: nat, r: Registers, f: bv32, k: bv32, word: bv32, left5: bv32, left30: bv32)
    requires f == F(t, r.b, r.c, r.d) && k == K(t) && left5 == r.a.RotateLeft(5) && left30 == r.b.RotateLeft(30)
    ensures Round(t, r, word) == Registers(Accumulate(r.e, f, word, k, left5), r.a, left30, r.c, r.d)
  {
    hide F;
    hide K;
    hide Sum;
    hide Accumulate;
    AccumulateIsSum(left5, f, r.e, k, word);
  }

  /** What holds before round t: the registers, and the schedule as far as it has been overwritten. */
  ghost predicate Ready(block: seq<bv32>, m: Block, h: Registers, r: Registers, t: nat) {
    Window(block, m, if t < 16 then 16 else t) && r == Rounds(m, h, t)
  }

  lemma ReadyNext(block: seq<bv32>, block': seq<bv32>, m: Block, h: Registers, r: Registers, r': Registers, t: nat)
    requires Ready(block, m, h, r, t) && r' == Round(t, r, W(m, t))
    requires block' == if t < 16 then block else block[t % 16 := W(m, t)]
    ensures Ready(block', m, h, r', t + 1)
  {
    hide Round;
    if t >= 16 { BlkIsW(block, m, t); }
  }

  /** A round given the word, the function's value and the constant. */
  lemma Turn(block: seq<bv32>, block': seq<bv32>, m: Block, h: Registers, r: Registers, t: nat,
             f: bv32, k: bv32, word: bv32, left5: bv32, left30: bv32)
    requires Ready(block, m, h, r, t) && word == W(m, t)
    requires block' == if t < 16 then block else block[t % 16 := word]
    requires f == F(t, r.b, r.c, r.d) && k == K(t) && left5 == Rol(r.a, 5) && left30 == Rol(r.b, 30)
    ensures Ready(block', m, h, Registers(Accumulate(r.e, f, word, k, left5), r.a, left30, r.c, r.d), t + 1)
  {
    RolIsRotate(r.a);
    RolIsRotate(r.b);
    hide Rol;
    hide F;
    hide W;
    hide Ready;
    hide Accumulate;
    RoundInPlace(t, r, f, k, word, left5, left30);
    ReadyNext(block, block', m, h, r, Round(t, r, word), t);
  }

  /** Rounds 0 to 15 */
  method R0(block: array<bv32>, v: bv32, w: bv32, x: bv32, y: bv32, z: bv32, i: nat,
            ghost m: Block, ghost h: Registers, ghost t: nat) returns (w': bv32, z': bv32)
    requires t < 16 && i == t && Ready(block[..], m, h, Registers(v, w, x, y, z), t)
    ensures Ready(block[..], m, h, Registers(z', v, w', x, y), t + 1)
  {
    assert block.Length == |block[..]| == 16 && Newest(16, i) == i;
    assert block[i] == block[..][i] == W(m, t);
    Choices(w, x, y);
    var f := (w & (x ^ y)) ^ y;
    assert f == F(t, w, x, y);
    hide Ready;
    hide Rol;
    hide F;
    hide Accumulate;
    z' := Accumulate(z, f, block[i], 0x5a827999, Rol(v, 5));
    w' := Rol(w, 30);
    Turn(block[..], block[..], m, h, Registers(v, w, x, y, z), t, f, 0x5a827999, block[i], Rol(v, 5), Rol(w, 30));
  }

  /** Rounds 16 to 19 */
  method R1(block: array<bv32>, v: bv32, w: bv32, x: bv32, y: bv32, z: bv32, i: nat,
            ghost m: Block, ghost h: Registers, ghost t: nat) returns (w': bv32, z': bv32)
    requires 16 <= t < 20 && i == t % 16 && Ready(block[..], m, h, Registers(v, w, x, y, z), t)
    modifies block
    ensures Ready(block[..], m, h, Registers(z', v, w', x, y), t + 1)
  {
    ghost var before := block[..];
    assert block.Length == |before| == 16;
    BlkIsW(before, m, t);
    Choices(w, x, y);
    var f := (w & (x ^ y)) ^ y;
    assert f == F(t, w, x, y);
    hide Ready;
    hide Rol;
    hide F;
    hide Blk;
    hide W;
    hide Accumulate;
    block[i] := Blk(block[..], i);
    assert block[..] == before[i := W(m, t)];
    z' := Accumulate(z, f, block[i], 0x5a827999, Rol(v, 5));
    w' := Rol(w, 30);
    Turn(before, block[..], m, h, Registers(v, w, x, y, z), t, f, 0x5a827999, block[i], Rol(v, 5), Rol(w, 30));
  }

  /** Rounds 20 to 39 */
  method R2(block: array<bv32>, v: bv32, w: bv32, x: bv32, y: bv32, z: bv32, i: nat,
            ghost m: Block, ghost h: Registers, ghost t: nat) returns (w': bv32, z': bv32)
    requires 20 <= t < 40 && i == t % 16 && Ready(block[..], m, h, Registers(v, w, x, y, z), t)
    modifies block
    ensures Ready(block[..], m, h, Registers(z', v, w', x, y), t + 1)
  {
    ghost var before := block[..];
    assert block.Length == |before| == 16;
    BlkIsW(before, m, t);
    var f := w ^ x ^ y;
    assert f == F(t, w, x, y);
    hide Ready;
    hide Rol;
    hide F;
    hide Blk;
    hide W;
    hide Accumulate;
    block[i] := Blk(block[..], i);
    assert block[..] == before[i := W(m, t)];
    z' := Accumulate(z, f, block[i], 0x6ed9eba1, Rol(v, 5));
    w' := Rol(w, 30);
    Turn(before, block[..], m, h, Registers(v, w, x, y, z), t, f, 0x6ed9eba1, block[i], Rol(v, 5), Rol(w, 30));
  }

  /** Rounds 40 to 59 */
  method R3(block: array<bv32>, v: bv32, w: bv32, x: bv32, y: bv32, z: bv32, i: nat,
            ghost m: Block, ghost h: Registers, ghost t: nat) returns (w': bv32, z': bv32)
    requires 40 <= t < 60 && i == t % 16 && Ready(block[..], m, h, Registers(v, w, x, y, z), t)
    modifies block
    ensures Ready(block[..], m, h, Registers(z', v, w', x, y), t + 1)
  {
    ghost var before := block[..];
    assert block.Length == |before| == 16;
    BlkIsW(before, m, t);
    Choices(w, x, y);
    var f := ((w | x) & y) | (w & x);
    assert f == F(t, w, x, y);
    hide Ready;
    hide Rol;
    hide F;
    hide Blk;
    hide W;
    hide Accumulate;
    block[i] := Blk(block[..], i);
    assert block[..] == before[i := W(m, t)];
    z' := Accumulate(z, f, block[i], 0x8f1bbcdc, Rol(v, 5));
    w' := Rol(w, 30);
    Turn(before, block[..], m, h, Registers(v, w, x, y, z), t, f, 0x8f1bbcdc, block[i], Rol(v, 5), Rol(w, 30));
  }

  /** Rounds 60 to 79 */
  method R4(block: array<bv32>, v: bv32, w: bv32, x: bv32, y: bv32, z: bv32, i: nat,
            ghost m: Block, ghost h: Registers, ghost t: nat) returns (w': bv32, z': bv32)
    requires 60 <= t < 80 && i == t % 16 && Ready(block[..], m, h, Registers(v, w, x, y, z), t)
    modifies block
    ensures Ready(block[..], m, h, Registers(z', v, w', x, y), t + 1)
  {
    ghost var before := block[..];
    assert block.Length == |before| == 16;
    BlkIsW(before, m, t);
    var f := w ^ x ^ y;
    assert f == F(t, w, x, y);
    hide Ready;
    hide Rol;
    hide F;
    hide Blk;
    hide W;
    hide Accumulate;
    block[i] := Blk(block[..], i);
    assert block[..] == before[i := W(m, t)];
    z' := Accumulate(z, f, block[i], 0xca62c1d6, Rol(v, 5));
    w' := Rol(w, 30);
    Turn(before, block[..], m, h, Registers(v, w, x, y, z), t, f, 0xca62c1d6, block[i], Rol(v, 5), Rol(w, 30));
  }

  method Rounds0To19(block: array<bv32>, r: Registers, ghost m: Block, ghost h: Registers) returns (r': Registers)
    requires Ready(block[..], m, h, r, 0)
    modifies block
    ensures Ready(block[..], m, h, r', 20)
  {
    hide Ready;
    var a, b, c, d, e := r.a, r.b, r.c, r.d, r.e;
    b, e := R0(block, a, b, c, d, e, 0, m, h, 0);
    a, d := R0(block, e, a, b, c, d, 1, m, h, 1);
    e, c := R0(block, d, e, a, b, c, 2, m, h, 2);
    d, b := R0(block, c, d, e, a, b, 3, m, h, 3);
    c, a := R0(block, b, c, d, e, a, 4, m, h, 4);
    b, e := R0(block, a, b, c, d, e, 5, m, h, 5);
    a, d := R0(block, e, a, b, c, d, 6, m, h, 6);
    e, c := R0(block, d, e, a, b, c, 7, m, h, 7);
    d, b := R0(block, c, d, e, a, b, 8, m, h, 8);
    c, a := R0(block, b, c, d, e, a, 9, m, h, 9);
    b, e := R0(block, a, b, c, d, e, 10, m, h, 10);
    a, d := R0(block, e, a, b, c, d, 11, m, h, 11);
    e, c := R0(block, d, e, a, b, c, 12, m, h, 12);
    d, b := R0(block, c, d, e, a, b, 13, m, h, 13);
    c, a := R0(block, b, c, d, e, a, 14, m, h, 14);
    b, e := R0(block, a, b, c, d, e, 15, m, h, 15);
    a, d := R1(block, e, a, b, c, d, 0, m, h, 16);
    e, c := R1(block, d, e, a, b, c, 1, m, h, 17);
    d, b := R1(block, c, d, e, a, b, 2, m, h, 18);
    c, a := R1(block, b, c, d, e, a, 3, m, h, 19);
    r' := Registers(a, b, c, d, e);
  }

  method Rounds20To39(block: array<bv32>, r: Registers, ghost m: Block, ghost h: Registers) returns (r': Registers)
    requires Ready(block[..], m, h, r, 20)
    modifies block
    ensures Ready(block[..], m, h, r', 40)
  {
    hide Ready;
    var a, b, c, d, e := r.a, r.b, r.c, r.d, r.e;
    b, e := R2(block, a, b, c, d, e, 4, m, h, 20);
    a, d := R2(block, e, a, b, c, d, 5, m, h, 21);
    e, c := R2(block, d, e, a, b, c, 6, m, h, 22);
    d, b := R2(block, c, d, e, a, b, 7, m, h, 23);
    c, a := R2(block, b, c, d, e, a, 8, m, h, 24);
    b, e := R2(block, a, b, c, d, e, 9, m, h, 25);
    a, d := R2(block, e, a, b, c, d, 10, m, h, 26);
    e, c := R2(block, d, e, a, b, c, 11, m, h, 27);
    d, b := R2(block, c, d, e, a, b, 12, m, h, 28);
    c, a := R2(block, b, c, d, e, a, 13, m, h, 29);
    b, e := R2(block, a, b, c, d, e, 14, m, h, 30);
    a, d := R2(block, e, a, b, c, d, 15, m, h, 31);
    e, c := R2(block, d, e, a, b, c, 0, m, h, 32);
    d, b := R2(block, c, d, e, a, b, 1, m, h, 33);
    c, a := R2(block, b, c, d, e, a, 2, m, h, 34);
    b, e := R2(block, a, b, c, d, e, 3, m, h, 35);
    a, d := R2(block, e, a, b, c, d, 4, m, h, 36);
    e, c := R2(block, d, e, a, b, c, 5, m, h, 37);
    d, b := R2(block, c, d, e, a, b, 6, m, h, 38);
    c, a := R2(block, b, c, d, e, a, 7, m, h, 39);
    r' := Registers(a, b, c, d, e);
  }

  method Rounds40To59(block: array<bv32>, r: Registers, ghost m: Block, ghost h: Registers) returns (r': Registers)
    requires Ready(block[..], m, h, r, 40)
    modifies block
    ensures Ready(block[..], m, h, r', 60)
  {
    hide Ready;
    var a, b, c, d, e := r.a, r.b, r.c, r.d, r.e;
    b, e := R3(block, a, b, c, d, e, 8, m, h, 40);
    a, d := R3(block, e, a, b, c, d, 9, m, h, 41);
    e, c := R3(block, d, e, a, b, c, 10, m, h, 42);
    d, b := R3(block, c, d, e, a, b, 11, m, h, 43);
    c, a := R3(block, b, c, d, e, a, 12, m, h, 44);
    b, e := R3(block, a, b, c, d, e, 13, m, h, 45);
    a, d := R3(block, e, a, b, c, d, 14, m, h, 46);
    e, c := R3(block, d, e, a, b, c, 15, m, h, 47);
    d, b := R3(block, c, d, e, a, b, 0, m, h, 48);
    c, a := R3(block, b, c, d, e, a, 1, m, h, 49);
    b, e := R3(block, a, b, c, d, e, 2, m, h, 50);
    a, d := R3(block, e, a, b, c, d, 3, m, h, 51);
    e, c := R3(block, d, e, a, b, c, 4, m, h, 52);
    d, b := R3(block, c, d, e, a, b, 5, m, h, 53);
    c, a := R3(block, b, c, d, e, a, 6, m, h, 54);
    b, e := R3(block, a, b, c, d, e, 7, m, h, 55);
    a, d := R3(block, e, a, b, c, d, 8, m, h, 56);
    e, c := R3(block, d, e, a, b, c, 9, m, h, 57);
    d, b := R3(block, c, d, e, a, b, 10, m, h, 58);
    c, a := R3(block, b, c, d, e, a, 11, m, h, 59);
    r' := Registers(a, b, c, d, e);
  }

  method Rounds60To79(block: array<bv32>, r: Registers, ghost m: Block, ghost h: Registers) returns (r': Registers)
    requires Ready(block[..], m, h, r, 60)
    modifies block
    ensures Ready(block[..], m, h, r', 80)
  {
    hide Ready;
    var a, b, c, d, e := r.a, r.b, r.c, r.d, r.e;
    b, e := R4(block, a, b, c, d, e, 12, m, h, 60);
    a, d := R4(block, e, a, b, c, d, 13, m, h, 61);
    e, c := R4(block, d, e, a, b, c, 14, m, h, 62);
    d, b := R4(block, c, d, e, a, b, 15, m, h, 63);
    c, a := R4(block, b, c, d, e, a, 0, m, h, 64);
    b, e := R4(block, a, b, c, d, e, 1, m, h, 65);
    a, d := R4(block, e, a, b, c, d, 2, m, h, 66);
    e, c := R4(block, d, e, a, b, c, 3, m, h, 67);
    d, b := R4(block, c, d, e, a, b, 4, m, h, 68);
    c, a := R4(block, b, c, d, e, a, 5, m, h, 69);
    b, e := R4(block, a, b, c, d, e, 6, m, h, 70);
    a, d := R4(block, e, a, b, c, d, 7, m, h, 71);
    e, c := R4(block, d, e, a, b, c, 8, m, h, 72);
    d, b := R4(block, c, d, e, a, b, 9, m, h, 73);
    c, a := R4(block, b, c, d, e, a, 10, m, h, 74);
    b, e := R4(block, a, b, c, d, e, 11, m, h, 75);
    a, d := R4(block, e, a, b, c, d, 12, m, h, 76);
    e, c := R4(block, d, e, a, b, c, 13, m, h, 77);
    d, b := R4(block, c, d, e, a, b, 14, m, h, 78);
    c, a := R4(block, b, c, d, e, a, 15, m, h, 79);
    r' := Registers(a, b, c, d, e);
  }

  /** `transform`: one block into the digest. */
  method Transform(digest: array<bv32>, block: array<bv32>)
    requires digest.Length == 5 && block.Length == 16 && digest != block
    modifies digest, block
    ensures Held(digest) == Compress(old(Held(digest)), old(block[..]))
  {
    ghost var m := block[..];
    var h := Registers(digest[0], digest[1], digest[2], digest[3], digest[4]);
    FirstWindow(m);
    assert Ready(block[..], m, h, h, 0);
    hide Ready;
    var r := Rounds0To19(block, h, m, h);
    r := Rounds20To39(block, r, m, h);
    r := Rounds40To59(block, r, m, h);
    r := Rounds60To79(block, r, m, h);
    ReadyIsRounds(block[..], m, h, r);
    hide Rounds;
    hide Add;
    digest[0] := Add(digest[0], r.a);
    digest[1] := Add(digest[1], r.b);
    digest[2] := Add(digest[2], r.c);
    digest[3] := Add(digest[3], r.d);
    digest[4] := Add(digest[4], r.e);
  }

  lemma ReadyIsRounds(block: seq<bv32>, m: Block, h: Registers, r: Registers)
    requires Ready(block, m, h, r, 80)
    ensures r == Rounds(m, h, 80)
  {
    hide Rounds;
  }

  /** The digest's five words. */
  function Held(digest: array<bv32>): (h: Registers)
    requires digest.Length == 5
    reads digest
  {
    Registers(digest[0], digest[1], digest[2], digest[3], digest[4])
  }
}
