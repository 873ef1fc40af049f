/** The SHA-1 context: `init`, `update` with any pieces of a message, `finish`. */
module Sha1Context {
  import opened Bytes
  import opened Sha1Spec
  import opened Sha1

  const BLOCK_BYTES := 64

  // ----- Words and bytes -----

  lemma WordOfBytes(p0: bv8, p1: bv8, p2: bv8, p3: bv8)
    ensures p3 as bv32 | (p2 as bv32 << 8) | (p1 as bv32 << 16) | (p0 as bv32 << 24) == Word(p0, p1, p2, p3)
  {
  }

  lemma WordBytesAreWord(w: bv32)
    ensures Word(WordBytes(w)[0], WordBytes(w)[1], WordBytes(w)[2], WordBytes(w)[3]) == w
  {
  }

  /** `make_block`: sixteen words, most significant byte first. */
  method MakeBlock(p: array<bv8>, block: array<bv32>)
    requires p.Length == 64 && block.Length == 16
    modifies block
    ensures block[..] == Parse(p[..])
  {
    hide Word;
    for i := 0 to 16
      invariant forall j :: 0 <= j < i ==> block[j] == Parse(p[..])[j]
    {
      WordOfBytes(p[4 * i], p[4 * i + 1], p[4 * i + 2], p[4 * i + 3]);
      block[i] := p[4 * i + 3] as bv32 | (p[4 * i + 2] as bv32 << 8) | (p[4 * i + 1] as bv32 << 16) | (p[4 * i] as bv32 << 24);
    }
  }

  // ----- The last blocks -----

  function LengthBytes(l: bv64): (s: seq<bv8>)
    ensures |s| == 8
  {
    WordBytes(High(l)) + WordBytes(Low(l))
  }

  /** Storing the two length words is appending the length's bytes. */
  lemma LengthWords(front: seq<bv8>, l: bv64)
    requires |front| == 56
    ensures Parse(front + LengthBytes(l)) == Parse(front + Zeros(8))[14 := High(l)][15 := Low(l)]
  {
    WordBytesAreWord(High(l));
    WordBytesAreWord(Low(l));
    hide Word;
    hide WordBytes;
    hide High;
    hide Low;
    var s, z := front + LengthBytes(l), front + Zeros(8);
    forall i | 0 <= i < 16 ensures Parse(s)[i] == Parse(z)[14 := High(l)][15 := Low(l)][i] {
      if i < 14 {
        assert s[4 * i] == z[4 * i] && s[4 * i + 1] == z[4 * i + 1];
        assert s[4 * i + 2] == z[4 * i + 2] && s[4 * i + 3] == z[4 * i + 3];
      }
    }
  }

  lemma HashAppend(done: seq<bv8>, s: seq<bv8>)
    requires |done| % 64 == 0 && |s| == 64
    ensures HashBlocks(done + s) == Compress(HashBlocks(done), Parse(s))
  {
    hide Compress;
    assert (done + s)[..|done|] == done && (done + s)[|done|..] == s;
  }

  /** What padding adds after the last whole block. */
  function LastBytes(r: seq<bv8>, fill: nat, l: bv64): (s: seq<bv8>) {
    r + [0x80] + Zeros(fill) + LengthBytes(l)
  }

  lemma PadSplit(m: seq<bv8>, done: seq<bv8>, r: seq<bv8>, l: bv64)
    requires m == done + r
    ensures Pad(m, l) == done + LastBytes(r, Fill(|m|), l)
  {
    hide High;
    hide Low;
    hide Fill;
  }

  lemma ZerosSplit(a: nat, b: nat)
    ensures Zeros(a + b) == Zeros(a) + Zeros(b)
  {
  }

  lemma FillOf(n: nat, done: nat, r: nat)
    requires n == done + r && done % 64 == 0 && r < 64
    ensures Fill(n) == if r < 56 then 55 - r else 119 - r
  {
  }

  /** A block that ends with the length. */
  lemma LengthBlock(done: seq<bv8>, front: seq<bv8>, l: bv64)
    requires |done| % 64 == 0 && |front| == 56
    ensures HashBlocks(done + (front + LengthBytes(l)))
         == Compress(HashBlocks(done), Parse(front + Zeros(8))[14 := High(l)][15 := Low(l)])
  {
    hide *;
    LengthWords(front, l);
    HashAppend(done, front + LengthBytes(l));
  }

  /** What the buffer holds after the fill: the rest of the message, one bit and zeros. */
  function Filled(r: seq<bv8>): (s: seq<bv8>)
    requires |r| < 64
    ensures |s| == 64
  {
    r + [0x80] + Zeros(63 - |r|)
  }

  lemma FilledEarly(r: seq<bv8>, l: bv64)
    requires |r| < 56
    ensures var front := r + [0x80] + Zeros(55 - |r|);
            |front| == 56 && Filled(r) == front + Zeros(8) && LastBytes(r, 55 - |r|, l) == front + LengthBytes(l)
  {
    hide LengthBytes;
    ZerosSplit(55 - |r|, 8);
  }

  lemma FilledLate(r: seq<bv8>, l: bv64)
    requires 56 <= |r| < 64
    ensures LastBytes(r, 119 - |r|, l) == Filled(r) + (Zeros(56) + LengthBytes(l))
  {
    hide LengthBytes;
    ZerosSplit(63 - |r|, 56);
  }

  /** The message ends early in a block: the length fits behind it. */
  lemma OneLastBlock(m: seq<bv8>, done: seq<bv8>, r: seq<bv8>, l: bv64)
    requires m == done + r && |done| % 64 == 0 && |r| < 56
    ensures HashBlocks(Pad(m, l)) == Compress(HashBlocks(done), Parse(Filled(r))[14 := High(l)][15 := Low(l)])
  {
    hide *;
    PadSplit(m, done, r, l);
    FillOf(|m|, |done|, |r|);
    FilledEarly(r, l);
    LengthBlock(done, r + [0x80] + Zeros(55 - |r|), l);
  }

  /** The message ends late in a block: the length takes a block of its own. */
  lemma TwoLastBlocks(m: seq<bv8>, done: seq<bv8>, r: seq<bv8>, l: bv64)
    requires m == done + r && |done| % 64 == 0 && 56 <= |r| < 64
    ensures HashBlocks(Pad(m, l))
         == Compress(Compress(HashBlocks(done), Parse(Filled(r))), Parse(Zeros(64))[14 := High(l)][15 := Low(l)])
  {
    hide *;
    PadSplit(m, done, r, l);
    FillOf(|m|, |done|, |r|);
    FilledLate(r, l);
    ZerosSplit(56, 8);
    HashAppend(done, Filled(r));
    LengthBlock(done + Filled(r), Zeros(56), l);
    ConcatAssoc(done, Filled(r), Zeros(56) + LengthBytes(l));
  }

  lemma ConcatAssoc(a: seq<bv8>, b: seq<bv8>, c: seq<bv8>)
    ensures a + (b + c) == a + b + c
  {
  }

  // ----- The context -----

  class Context {
    var buflen: nat
    var blocks: nat
    const digest: array<bv32>
    const buf: array<bv8>
    ghost var message: seq<bv8>   // everything given to `Update`

    ghost predicate Shape()
      reads this
    {
      digest.Length == 5 && buf.Length == 64
    }

    /** Whole blocks are hashed and the rest of the message waits in the buffer. */
    ghost predicate Valid()
      reads this, digest, buf
    {
      && Shape() && buflen < 64
      && |message| == blocks * 64 + buflen
      && buf[..buflen] == message[blocks * 64..]
      && Held(digest) == HashBlocks(message[..blocks * 64])
    }

    /** `init` */
    constructor ()
      ensures Valid() && message == [] && fresh(digest) && fresh(buf)
    {
      buflen, blocks, message := 0, 0, [];
      digest := new bv32[5];
      buf := new bv8[64];
      new;
      digest[0], digest[1], digest[2], digest[3], digest[4] := 0x67452301, 0xefcdab89, 0x98badcfe, 0x10325476, 0xc3d2e1f0;
    }

    /** A full buffer is hashed. */
    method HashBuffer()
      requires Shape() && buflen == 64 && |message| == blocks * 64 + 64
      requires buf[..] == message[blocks * 64..] && Held(digest) == HashBlocks(message[..blocks * 64])
      modifies this, digest
      ensures Valid() && buflen == 0 && message == old(message) && blocks == old(blocks) + 1
    {
      hide Compress;
      hide Parse;
      hide HashBlocks;
      ghost var k := blocks;
      buflen := 0;
      var block := new bv32[16];
      MakeBlock(buf, block);
      Transform(digest, block);
      blocks := blocks + 1;
      HashAppend(message[..k * 64], message[k * 64..]);
      assert message[..k * 64] + message[k * 64..] == message;
      assert message[..blocks * 64] == message;
    }

    /** As much of the piece as the buffer takes. */
    method Fill(piece: seq<bv8>, at: nat) returns (n: nat)
      requires Valid() && at <= |piece|
      modifies this, buf
      ensures n == if |piece| - at < 64 - old(buflen) then |piece| - at else 64 - old(buflen)
      ensures Shape() && blocks == old(blocks) && Held(digest) == old(Held(digest))
      ensures buflen == old(buflen) + n && message == old(message) + piece[at..at + n]
      ensures |message| == blocks * 64 + buflen && buf[..buflen] == message[blocks * 64..]
      ensures message[..blocks * 64] == old(message[..blocks * 64])
    {
      hide HashBlocks;
      n := if |piece| - at < 64 - buflen then |piece| - at else 64 - buflen;
      forall k | buflen <= k < buflen + n {
        buf[k] := piece[at + k - buflen];
      }
      assert buf[..buflen + n] == old(buf[..buflen]) + piece[at..at + n];
      message := message + piece[at..at + n];
      buflen := buflen + n;
      assert message[blocks * 64..] == old(message[blocks * 64..]) + piece[at..at + n];
      assert message[..blocks * 64] == old(message[..blocks * 64]);
    }

    /** `update`: the piece is appended to the message. */
    method Update(piece: seq<bv8>)
      requires Valid()
      modifies this, digest, buf
      ensures Valid() && message == old(message) + piece
    {
      hide HashBlocks;
      hide Held;
      var at := 0;
      assert message + piece[..0] == message;
      while true
        invariant at <= |piece| && Valid() && message == old(message) + piece[..at]
        decreases |piece| - at, 64 - buflen
      {
        var n := Fill(piece, at);
        assert old(message) + piece[..at] + piece[at..at + n] == old(message) + piece[..at + n];
        if buflen != 64 {
          assert piece[..|piece|] == piece;
          return;
        }
        at := at + n;
        assert buf[..buflen] == buf[..];
        HashBuffer();
      }
    }

    /** One bit and zeros up to the end of the buffer. */
    method PadBuffer()
      requires Valid()
      modifies this, buf
      ensures Shape() && buf[..] == Filled(old(buf[..buflen])) && blocks == old(blocks) && message == old(message)
      ensures Held(digest) == old(Held(digest))
    {
      hide HashBlocks;
      ghost var r := buf[..buflen];
      buf[buflen] := 0x80;
      buflen := buflen + 1;
      while buflen < 64
        invariant |r| + 1 <= buflen <= 64 && Shape() && blocks == old(blocks) && message == old(message)
        invariant buf[..buflen] == r + [0x80] + Zeros(buflen - 1 - |r|)
        invariant Held(digest) == old(Held(digest))
      {
        buf[buflen] := 0;
        buflen := buflen + 1;
      }
      assert buf[..64] == buf[..];
    }

    /** The last one or two blocks, from the padded buffer. */
    method HashLast(late: bool, l: bv64, ghost m: seq<bv8>, ghost done: seq<bv8>, ghost r: seq<bv8>)
      requires Shape() && |r| < 64 && late == (|r| >= 56) && m == done + r && |done| % 64 == 0
      requires buf[..] == Filled(r) && Held(digest) == HashBlocks(done)
      modifies digest
      ensures Held(digest) == HashBlocks(Pad(m, l))
    {
      assert digest.Length == 5 && buf.Length == 64;
      hide *;
      var block := new bv32[16];
      MakeBlock(buf, block);
      if late {
        TwoLastBlocks(m, done, r, l);
        Transform(digest, block);
        ClearWords(block);
        ZeroedWords(block[..], High(l), Low(l));
        StoreLength(block, l);
      } else {
        OneLastBlock(m, done, r, l);
        StoreLength(block, l);
      }
      Transform(digest, block);
    }

    /** `finish`: the digest of the whole message, most significant byte first. The context is spent. */
    method Finish(out: array<bv8>)
      requires Valid() && out.Length == 20 && out != buf
      modifies this, digest, buf, out
      ensures out[..] == Digest(old(message))
    {
      hide BitLength;
      hide HashBlocks;
      hide Pad;
      ghost var m, done, r := message, message[..blocks * 64], buf[..buflen];
      assert m == done + r;
      var l := BitLength(blocks * 64 + buflen);
      var late := buflen + 1 > BLOCK_BYTES - 8;
      PadBuffer();
      HashLast(late, l, m, done, r);
      WriteDigest(out);
    }

    method WriteDigest(out: array<bv8>)
      requires Shape() && out.Length == 20
      modifies out
      ensures out[..] == RegisterBytes(Held(digest))
    {
      hide WordBytes;
      for i := 0 to 5
        invariant forall j :: 0 <= j < i ==> out[4 * j..4 * j + 4] == WordBytes(digest[j])
      {
        var w := digest[i];
        out[4 * i + 3] := (w & 0xff) as bv8;
        out[4 * i + 2] := ((w >> 8) & 0xff) as bv8;
        out[4 * i + 1] := ((w >> 16) & 0xff) as bv8;
        out[4 * i] := ((w >> 24) & 0xff) as bv8;
        ByteOrder(w);
      }
      assert out[..] == out[0..4] + out[4..8] + out[8..12] + out[12..16] + out[16..20];
      assert out[4 * 0..4 * 0 + 4] == WordBytes(digest[0]) && out[4 * 1..4 * 1 + 4] == WordBytes(digest[1]);
      assert out[4 * 2..4 * 2 + 4] == WordBytes(digest[2]) && out[4 * 3..4 * 3 + 4] == WordBytes(digest[3]);
      assert out[4 * 4..4 * 4 + 4] == WordBytes(digest[4]);
    }
  }

  /** `init`, `update` with any cutting of a message, `finish`: the SHA-1 digest of the joined message. */
  method HashPieces(pieces: seq<seq<bv8>>, out: array<bv8>)
    requires out.Length == 20
    modifies out
    ensures out[..] == Digest(Join(pieces))
  {
    hide Digest;
    var ctx := new Context();
    var n := 0;
    while n < |pieces|
      invariant 0 <= n <= |pieces| && ctx.Valid() && ctx.message == Join(pieces[..n])
      invariant fresh(ctx) && fresh(ctx.digest) && fresh(ctx.buf)
    {
      ctx.Update(pieces[n]);
      n := n + 1;
      assert pieces[..n][..n - 1] == pieces[..n - 1];
    }
    assert pieces[..n] == pieces;
    ctx.Finish(out);
  }

  lemma ByteOrder(w: bv32)
    ensures WordBytes(w)
         == [((w >> 24) & 0xff) as bv8, ((w >> 16) & 0xff) as bv8, ((w >> 8) & 0xff) as bv8, (w & 0xff) as bv8]
  {
  }

  /** The length, split in two words. */
  method StoreLength(block: array<bv32>, l: bv64)
    requires block.Length == 16
    modifies block
    ensures block[..] == old(block[..])[14 := High(l)][15 := Low(l)]
  {
    hide *;
    block[15] := Low(l);
    block[14] := High(l);
  }

  /** The words before the length are set to zero. */
  method ClearWords(block: array<bv32>)
    requires block.Length == 16
    modifies block
    ensures forall i :: 0 <= i < 14 ==> block[..][i] == 0
  {
    for i := 0 to 14
      invariant forall j :: 0 <= j < i ==> block[j] == 0
    {
      block[i] := 0;
    }
  }

  lemma ZeroedWords(words: seq<bv32>, high: bv32, low: bv32)
    requires |words| == 16 && forall i :: 0 <= i < 14 ==> words[i] == 0
    ensures words[14 := high][15 := low] == Parse(Zeros(64))[14 := high][15 := low]
  {
    assert Word(0, 0, 0, 0) == 0;
  }
}
