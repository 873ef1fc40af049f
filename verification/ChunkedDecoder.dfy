/**
 The chunked decoder as it is written: one pass over a buffer that is rewritten in place, decoded bytes moved
 down to its front and the undecoded tail moved after them.
 */
module ChunkedDecoder {
  import opened Bytes
  import opened Chunked

  /** `memmove(buf + dst, buf + src, n)`. */
  method Move(buf: array<byte>, dst: nat, src: nat, n: nat)
    requires dst <= src && src + n <= buf.Length
    modifies buf
    ensures buf[dst..dst + n] == old(buf[src..src + n])
    ensures buf[..dst] == old(buf[..dst])
    ensures buf[src + n..] == old(buf[src + n..])
  {
    forall k | dst <= k < dst + n {
      buf[k] := buf[k - dst + src];
    }
  }

  /** The next `n` bytes move down to the decoded front, unless they are there already. */
  method MoveDown(buf: array<byte>, dst: nat, src: nat, n: nat, bufsz: nat)
    requires dst <= src && src + n <= bufsz <= buf.Length
    modifies buf
    ensures buf[..dst + n] == old(buf[..dst]) + old(buf[src..src + n])
    ensures buf[src + n..bufsz] == old(buf[src + n..bufsz])
    ensures buf[bufsz..] == old(buf[bufsz..])
  {
    if dst != src {
      Move(buf, dst, src, n);
    }
    assert buf[..dst + n] == buf[..dst] + buf[dst..dst + n];
    assert buf[src + n..bufsz] == buf[src + n..][..bufsz - src - n];
    assert old(buf[src + n..bufsz]) == old(buf[src + n..])[..bufsz - src - n];
    assert buf[bufsz..] == buf[src + n..][bufsz - src - n..];
    assert old(buf[bufsz..]) == old(buf[src + n..])[bufsz - src - n..];
  }

  // ----- Where the decoder is in the buffer -----

  /** Offsets `dst` and `src` are reached: the front is decoded, the rest is as it was given. */
  ghost predicate At(buf: array<byte>, given: seq<byte>, d: Decoder, dst: nat, src: nat, goal: Outcome)
    reads buf
  {
    && dst <= src <= |given| <= buf.Length
    && Chunked.Valid(d)
    && buf[src..|given|] == given[src..]
    && After(buf[..dst], Decode(d, given[src..])) == goal
  }

  /** The decoder stops at these offsets with this verdict. */
  ghost predicate Halted(buf: array<byte>, given: seq<byte>, d: Decoder, dst: nat, src: nat, verdict: Verdict, goal: Outcome)
    reads buf
  {
    && dst <= src <= |given| <= buf.Length
    && buf[src..|given|] == given[src..]
    && goal == Outcome(verdict, d, buf[..dst], given[src..])
  }

  /** The byte at `src` leaves the decoder in `d'` and puts nothing out. */
  lemma Pass(buf: array<byte>, given: seq<byte>, d: Decoder, dst: nat, src: nat, goal: Outcome, d': Decoder)
    requires At(buf, given, d, dst, src, goal) && src < |given|
    requires StepByte(d, given[src]) == Continue(d', [])
    ensures At(buf, given, d', dst, src + 1, goal)
  {
    StepValid(d, given[src]);
    hide StepByte;
    hide Chunked.Valid;
    assert given[src..][0] == given[src] && given[src..][1..] == given[src + 1..];
    assert buf[src + 1..|given|] == buf[src..|given|][1..];
    assert After([], Decode(d', given[src + 1..])) == Decode(d', given[src + 1..]);
  }

  /** The byte that ends the size is looked at again as an extension. */
  lemma SizeEnds(buf: array<byte>, given: seq<byte>, d: Decoder, dst: nat, src: nat, goal: Outcome)
    requires At(buf, given, d, dst, src, goal) && src < |given|
    requires d.phase == ChunkSize && d.hexCount > 0 && DecodeHex(given[src]) == -1
    ensures At(buf, given, d.(hexCount := 0, phase := ChunkExt), dst, src, goal)
  {
    assert given[src..][0] == given[src];
  }

  lemma InRange(buf: array<byte>, given: seq<byte>, d: Decoder, dst: nat, src: nat, goal: Outcome)
    requires At(buf, given, d, dst, src, goal)
    ensures dst <= src <= |given| <= buf.Length
  {
  }

  lemma ChunkNotEmpty(buf: array<byte>, given: seq<byte>, d: Decoder, dst: nat, src: nat, goal: Outcome)
    requires At(buf, given, d, dst, src, goal) && d.phase == ChunkData
    ensures d.left > 0
  {
  }

  lemma Byte(buf: array<byte>, given: seq<byte>, d: Decoder, dst: nat, src: nat, goal: Outcome)
    requires At(buf, given, d, dst, src, goal) && src < |given|
    ensures src < buf.Length && given[src] == buf[src]
  {
    assert buf[src] == buf[src..|given|][0];
  }

  lemma OutOfBytes(buf: array<byte>, given: seq<byte>, d: Decoder, dst: nat, goal: Outcome)
    requires At(buf, given, d, dst, |given|, goal)
    ensures Halted(buf, given, d, dst, |given|, Incomplete, goal)
  {
    assert given[|given|..] == [] && buf[..dst] + [] == buf[..dst];
  }

  lemma Rejected(buf: array<byte>, given: seq<byte>, d: Decoder, dst: nat, src: nat, goal: Outcome)
    requires At(buf, given, d, dst, src, goal) && src < |given| && StepByte(d, given[src]) == Reject(d)
    ensures Halted(buf, given, d, dst, src, Error, goal)
  {
    hide StepByte;
    assert given[src..][0] == given[src] && buf[..dst] + [] == buf[..dst];
  }

  lemma Finished(buf: array<byte>, given: seq<byte>, d: Decoder, dst: nat, src: nat, goal: Outcome)
    requires At(buf, given, d, dst, src, goal) && src < |given| && StepByte(d, given[src]) == Finish(d)
    ensures Halted(buf, given, d, dst, src + 1, Complete, goal)
  {
    hide StepByte;
    assert given[src..][0] == given[src] && given[src..][1..] == given[src + 1..];
    assert buf[..dst] + [] == buf[..dst];
    assert buf[src + 1..|given|] == buf[src..|given|][1..];
  }

  /** The decoder after `n` bytes of a chunk. */
  function Drained(d: Decoder, n: nat): (d': Decoder)
    requires n <= d.left
  {
    if n == d.left then d.(left := 0, phase := ChunkCrlf) else d.(left := d.left - n)
  }

  /** The next `n` bytes of a chunk are put out as they are. */
  lemma Copied(front: seq<byte>, given: seq<byte>, d: Decoder, src: nat, n: nat)
    requires Chunked.Valid(d) && d.phase == ChunkData && src + n <= |given| && n <= d.left
    ensures After(front + given[src..src + n], Decode(Drained(d, n), given[src + n..])) == After(front, Decode(d, given[src..]))
    ensures Chunked.Valid(Drained(d, n))
  {
    var chunk, more := given[src..src + n], given[src + n..];
    assert given[src..] == chunk + more;
    hide StepByte;
    DecodeConcat(d, chunk, more);
    if n > 0 {
      DecodeData(d, chunk);
    }
    hide Decode;
    AfterAssoc(front, chunk, Decode(Drained(d, n), more));
  }

  lemma Arrived(buf: array<byte>, given: seq<byte>, d: Decoder, front: seq<byte>, chunk: seq<byte>, src: nat, goal: Outcome)
    requires |front + chunk| <= src <= |given| <= buf.Length && Chunked.Valid(d) && buf[src..|given|] == given[src..]
    requires buf[..|front + chunk|] == front + chunk && After(front + chunk, Decode(d, given[src..])) == goal
    ensures At(buf, given, d, |front + chunk|, src, goal)
  {
  }

  /** The next `n` bytes of a chunk are moved down. */
  method MoveData(
    buf: array<byte>, ghost given: seq<byte>, ghost d: Decoder, dst: nat, src: nat, n: nat, bufsz: nat, ghost goal: Outcome)
    requires bufsz == |given| && At(buf, given, d, dst, src, goal) && d.phase == ChunkData && src + n <= |given| && n <= d.left
    modifies buf
    ensures At(buf, given, Drained(d, n), dst + n, src + n, goal) && buf[|given|..] == old(buf[|given|..])
  {
    hide *;
    InRange(buf, given, d, dst, src, goal);
    ghost var front, chunk := buf[..dst], given[src..src + n];
    Opened(buf, given, d, dst, src, n, goal);
    Copied(front, given, d, src, n);
    MoveDown(buf, dst, src, n, bufsz);
    Arrived(buf, given, Drained(d, n), front, chunk, src + n, goal);
  }

  lemma Opened(buf: array<byte>, given: seq<byte>, d: Decoder, dst: nat, src: nat, n: nat, goal: Outcome)
    requires At(buf, given, d, dst, src, goal) && src + n <= |given|
    ensures dst <= src && |given| <= buf.Length && Chunked.Valid(d)
    ensures buf[src..src + n] == given[src..src + n] && buf[src + n..|given|] == given[src + n..]
    ensures After(buf[..dst], Decode(d, given[src..])) == goal
  {
    assert buf[src..src + n] == buf[src..|given|][..n];
    assert buf[src + n..|given|] == buf[src..|given|][n..];
  }

  /** Whether the decoder stops, and why. */
  datatype Stop = GoOn | StopWith(verdict: Verdict)

  class InPlace {
    var d: Decoder

    constructor (consumeTrailer: bool)
      ensures d == Fresh(consumeTrailer)
    {
      d := Fresh(consumeTrailer);
    }

    /** CHUNKED_IN_CHUNK_SIZE */
    method SizeState(buf: array<byte>, ghost given: seq<byte>, ghost dst: nat, from: nat, bufsz: nat, ghost goal: Outcome)
      returns (src: nat, stop: Stop)
      requires bufsz == |given| && At(buf, given, d, dst, from, goal) && d.phase == ChunkSize
      modifies this
      ensures from <= src <= bufsz
      ensures stop.StopWith? ==> Halted(buf, given, d, dst, src, stop.verdict, goal)
      ensures stop.GoOn? ==> At(buf, given, d, dst, src, goal) && d.phase == ChunkExt
    {
      hide At;
      hide Halted;
      src := from;
      assert from <= bufsz by { InRange(buf, given, d, dst, from, goal); }
      while true
        invariant from <= src <= bufsz && At(buf, given, d, dst, src, goal) && d.phase == ChunkSize
        decreases bufsz - src
      {
        if src == bufsz {
          OutOfBytes(buf, given, d, dst, goal);
          return src, StopWith(Incomplete);
        }
        Byte(buf, given, d, dst, src, goal);
        var v := DecodeHex(buf[src]);
        if v == -1 {
          if d.hexCount == 0 {
            Rejected(buf, given, d, dst, src, goal);
            return src, StopWith(Error);
          }
          break;
        }
        if d.hexCount == MAX_HEX {
          Rejected(buf, given, d, dst, src, goal);
          return src, StopWith(Error);
        }
        Pass(buf, given, d, dst, src, goal, StepByte(d, given[src]).decoder);
        d := d.(left := d.left * 16 + v, hexCount := d.hexCount + 1);
        src := src + 1;
      }
      SizeEnds(buf, given, d, dst, src, goal);
      d := d.(hexCount := 0, phase := ChunkExt);
      stop := GoOn;
    }

    /** CHUNKED_IN_CHUNK_EXT */
    method ExtState(buf: array<byte>, ghost given: seq<byte>, ghost dst: nat, from: nat, bufsz: nat, ghost goal: Outcome)
      returns (src: nat, stop: Stop)
      requires bufsz == |given| && At(buf, given, d, dst, from, goal) && d.phase == ChunkExt
      modifies this
      ensures from <= src <= bufsz
      ensures stop.StopWith? ==> Halted(buf, given, d, dst, src, stop.verdict, goal)
      ensures stop.GoOn? ==> from < src && At(buf, given, d, dst, src, goal) && d.phase != ChunkSize
    {
      hide At;
      hide Halted;
      src := from;
      assert from <= bufsz by { InRange(buf, given, d, dst, from, goal); }
      while true
        invariant from <= src <= bufsz && At(buf, given, d, dst, src, goal) && d.phase == ChunkExt
        decreases bufsz - src
      {
        if src == bufsz {
          OutOfBytes(buf, given, d, dst, goal);
          return src, StopWith(Incomplete);
        }
        Byte(buf, given, d, dst, src, goal);
        if buf[src] == LF {
          break;
        }
        Pass(buf, given, d, dst, src, goal, d);
        src := src + 1;
      }
      stop := GoOn;
      if d.left == 0 {
        if d.consumeTrailer {
          Pass(buf, given, d, dst, src, goal, d.(phase := TrailersLineHead));
          d := d.(phase := TrailersLineHead);
        } else {
          Finished(buf, given, d, dst, src, goal);
          return src + 1, StopWith(Complete);
        }
      } else {
        Pass(buf, given, d, dst, src, goal, d.(phase := ChunkData));
        d := d.(phase := ChunkData);
      }
      src := src + 1;
    }

    /** CHUNKED_IN_CHUNK_DATA */
    method DataState(buf: array<byte>, ghost given: seq<byte>, from: nat, at: nat, bufsz: nat, ghost goal: Outcome)
      returns (dst: nat, src: nat, stop: Stop)
      requires bufsz == |given| && At(buf, given, d, from, at, goal) && d.phase == ChunkData
      modifies this, buf
      ensures at <= src <= bufsz
      ensures buf[bufsz..] == old(buf[bufsz..])
      ensures stop.StopWith? ==> Halted(buf, given, d, dst, src, stop.verdict, goal)
      ensures stop.GoOn? ==> at < src && At(buf, given, d, dst, src, goal) && d.phase == ChunkCrlf
    {
      assert at <= bufsz by { InRange(buf, given, d, from, at, goal); }
      var avail := bufsz - at;
      var n := if avail < d.left then avail else d.left;
      assert d.left > 0 by { ChunkNotEmpty(buf, given, d, from, at, goal); }
      MoveData(buf, given, d, from, at, n, bufsz, goal);
      src, dst := at + n, from + n;
      hide At;
      hide Halted;
      if avail < d.left {
        d := d.(left := d.left - avail);
        OutOfBytes(buf, given, d, dst, goal);
        stop := StopWith(Incomplete);
      } else {
        d := d.(left := 0, phase := ChunkCrlf);
        stop := GoOn;
      }
    }

    /** CHUNKED_IN_CHUNK_CRLF */
    method CrlfState(buf: array<byte>, ghost given: seq<byte>, ghost dst: nat, from: nat, bufsz: nat, ghost goal: Outcome)
      returns (src: nat, stop: Stop)
      requires bufsz == |given| && At(buf, given, d, dst, from, goal) && d.phase == ChunkCrlf
      modifies this
      ensures from <= src <= bufsz
      ensures stop.StopWith? ==> Halted(buf, given, d, dst, src, stop.verdict, goal)
      ensures stop.GoOn? ==> from < src && At(buf, given, d, dst, src, goal)
    {
      hide At;
      hide Halted;
      src := from;
      assert from <= bufsz by { InRange(buf, given, d, dst, from, goal); }
      while true
        invariant from <= src <= bufsz && At(buf, given, d, dst, src, goal) && d.phase == ChunkCrlf
        decreases bufsz - src
      {
        if src == bufsz {
          OutOfBytes(buf, given, d, dst, goal);
          return src, StopWith(Incomplete);
        }
        Byte(buf, given, d, dst, src, goal);
        if buf[src] != CR {
          break;
        }
        Pass(buf, given, d, dst, src, goal, d);
        src := src + 1;
      }
      if buf[src] != LF {
        Rejected(buf, given, d, dst, src, goal);
        return src, StopWith(Error);
      }
      Pass(buf, given, d, dst, src, goal, d.(phase := ChunkSize));
      src := src + 1;
      d := d.(phase := ChunkSize);
      stop := GoOn;
    }

    /** CHUNKED_IN_TRAILERS_LINE_HEAD */
    method LineHeadState(buf: array<byte>, ghost given: seq<byte>, ghost dst: nat, from: nat, bufsz: nat, ghost goal: Outcome)
      returns (src: nat, stop: Stop)
      requires bufsz == |given| && At(buf, given, d, dst, from, goal) && d.phase == TrailersLineHead
      modifies this
      ensures from <= src <= bufsz
      ensures stop.StopWith? ==> Halted(buf, given, d, dst, src, stop.verdict, goal)
      ensures stop.GoOn? ==> from < src && At(buf, given, d, dst, src, goal)
    {
      hide At;
      hide Halted;
      src := from;
      assert from <= bufsz by { InRange(buf, given, d, dst, from, goal); }
      while true
        invariant from <= src <= bufsz && At(buf, given, d, dst, src, goal) && d.phase == TrailersLineHead
        decreases bufsz - src
      {
        if src == bufsz {
          OutOfBytes(buf, given, d, dst, goal);
          return src, StopWith(Incomplete);
        }
        Byte(buf, given, d, dst, src, goal);
        if buf[src] != CR {
          break;
        }
        Pass(buf, given, d, dst, src, goal, d);
        src := src + 1;
      }
      if buf[src] == LF {
        Finished(buf, given, d, dst, src, goal);
        return src + 1, StopWith(Complete);
      }
      Pass(buf, given, d, dst, src, goal, d.(phase := TrailersLineMiddle));
      src := src + 1;
      d := d.(phase := TrailersLineMiddle);
      stop := GoOn;
    }

    /** CHUNKED_IN_TRAILERS_LINE_MIDDLE */
    method LineMiddleState(buf: array<byte>, ghost given: seq<byte>, ghost dst: nat, from: nat, bufsz: nat, ghost goal: Outcome)
      returns (src: nat, stop: Stop)
      requires bufsz == |given| && At(buf, given, d, dst, from, goal) && d.phase == TrailersLineMiddle
      modifies this
      ensures from <= src <= bufsz
      ensures stop.StopWith? ==> Halted(buf, given, d, dst, src, stop.verdict, goal)
      ensures stop.GoOn? ==> from < src && At(buf, given, d, dst, src, goal)
    {
      hide At;
      hide Halted;
      src := from;
      assert from <= bufsz by { InRange(buf, given, d, dst, from, goal); }
      while true
        invariant from <= src <= bufsz && At(buf, given, d, dst, src, goal) && d.phase == TrailersLineMiddle
        decreases bufsz - src
      {
        if src == bufsz {
          OutOfBytes(buf, given, d, dst, goal);
          return src, StopWith(Incomplete);
        }
        Byte(buf, given, d, dst, src, goal);
        if buf[src] == LF {
          break;
        }
        Pass(buf, given, d, dst, src, goal, d);
        src := src + 1;
      }
      Pass(buf, given, d, dst, src, goal, d.(phase := TrailersLineHead));
      src := src + 1;
      d := d.(phase := TrailersLineHead);
      stop := GoOn;
    }

    /** The loop over the states. */
    method RunStates(buf: array<byte>, ghost given: seq<byte>, bufsz: nat, ghost goal: Outcome)
      returns (dst: nat, src: nat, verdict: Verdict)
      requires bufsz == |given| <= buf.Length && At(buf, given, d, 0, 0, goal)
      modifies this, buf
      ensures Halted(buf, given, d, dst, src, verdict, goal) && buf[bufsz..] == old(buf[bufsz..])
    {
      hide StepByte;
      hide Decode;
      hide At;
      src, dst := 0, 0;
      var stop := GoOn;
      while stop.GoOn?
        invariant src <= bufsz && buf[bufsz..] == old(buf[bufsz..])
        invariant stop.StopWith? ==> Halted(buf, given, d, dst, src, stop.verdict, goal)
        invariant stop.GoOn? ==> At(buf, given, d, dst, src, goal)
        decreases bufsz - src, stop.GoOn?, d.phase == ChunkSize
      {
        match d.phase
        case ChunkSize => src, stop := SizeState(buf, given, dst, src, bufsz, goal);
        case ChunkExt => src, stop := ExtState(buf, given, dst, src, bufsz, goal);
        case ChunkData => dst, src, stop := DataState(buf, given, dst, src, bufsz, goal);
        case ChunkCrlf => src, stop := CrlfState(buf, given, dst, src, bufsz, goal);
        case TrailersLineHead => src, stop := LineHeadState(buf, given, dst, src, bufsz, goal);
        case TrailersLineMiddle => src, stop := LineMiddleState(buf, given, dst, src, bufsz, goal);
      }
      verdict := stop.verdict;
    }

    /**
     `phr_decode_chunked`: the buffer's front holds the decoded bytes, the undecoded tail follows them, and the
     decoder is ready for more. The answer is -2, -1, or the number of bytes left undecoded.
     */
    method DecodeInPlace(buf: array<byte>, bufsz: nat) returns (ret: int, size: nat)
      requires bufsz <= buf.Length && Chunked.Valid(d)
      modifies this, buf
      ensures Chunked.Valid(d) && buf[bufsz..] == old(buf[bufsz..])
      ensures var o := Decode(old(d), old(buf[..bufsz]));
              && d == o.decoder
              && size + |o.rest| <= bufsz
              && buf[..size] == o.out
              && buf[size..size + |o.rest|] == o.rest
              && ret == match o.verdict case Incomplete => -2 case Error => -1 case Complete => |o.rest|
    {
      hide StepByte;
      hide Decode;
      ghost var given := buf[..bufsz];
      ghost var goal := Decode(d, given);
      DecodeValid(d, given);
      assert given[0..] == given && After(buf[..0], goal) == goal;
      var dst, src, verdict := RunStates(buf, given, bufsz, goal);
      ret := match verdict case Incomplete => -2 case Error => -1 case Complete => bufsz - src;
      ghost var tail := bufsz - src;
      MoveDown(buf, dst, src, bufsz - src, bufsz);
      size := dst;
      assert buf[size..size + tail] == buf[..size + tail][size..];
      assert buf[..size] == buf[..size + tail][..size];
    }
  }

  /**
   The caller's loop: piece after piece is decoded in its own buffer while the answer is -2. `tail` is what is left
   undecoded after the end of the body.
   */
  method DecodePieces(consumeTrailer: bool, cuts: seq<seq<byte>>) returns (ret: int, out: seq<byte>, tail: seq<byte>)
    ensures var o := DecodeAll(Fresh(consumeTrailer), cuts);
            && out == o.out
            && (o.verdict == Incomplete ==> ret == -2)
            && (o.verdict == Error ==> ret == -1)
            && (o.verdict == Complete ==> ret >= 0 && tail == o.rest)
  {
    hide Decode;
    var decoder := new InPlace(consumeTrailer);
    FreshIsValid(consumeTrailer);
    hide Chunked.Valid;
    ret, out, tail := -2, [], [];
    var n := 0;
    while n < |cuts|
      invariant 0 <= n <= |cuts| && Chunked.Valid(decoder.d)
      invariant var o := DecodeAll(Fresh(consumeTrailer), cuts[..n]);
                && out == o.out
                && (o.verdict == Incomplete ==> ret == -2 && decoder.d == o.decoder)
                && (o.verdict == Error ==> ret == -1)
                && (o.verdict == Complete ==> ret >= 0 && tail == o.rest)
    {
      assert cuts[..n + 1][..n] == cuts[..n];
      if ret == -2 {
        var buf := new byte[|cuts[n]|](i requires 0 <= i < |cuts[n]| => cuts[n][i]);
        assert buf[..buf.Length] == cuts[n];
        var size;
        ret, size := decoder.DecodeInPlace(buf, buf.Length);
        out := out + buf[..size];
        if ret >= 0 {
          tail := buf[size..size + ret];
        }
      } else {
        tail := tail + cuts[n];
      }
      n := n + 1;
    }
    assert cuts[..n] == cuts;
  }

  lemma FreshIsValid(consumeTrailer: bool)
    ensures Chunked.Valid(Fresh(consumeTrailer))
  {
  }

  /** Printed blocks, decoded in place under any cutting, are the joined blocks. */
  method DecodePrinted(
    consumeTrailer: bool, ghost blocks: seq<seq<byte>>, ghost extra: seq<byte>, cuts: seq<seq<byte>>)
    returns (ret: int, out: seq<byte>, tail: seq<byte>)
    requires blocks != [] && forall b :: b in blocks ==> |b| < 0x1_0000_0000_0000_0000
    requires Join(cuts) == Encode(blocks) + extra
    ensures ret >= 0 && out == Join(blocks) && tail == (if consumeTrailer then [] else CRLF) + extra
  {
    hide *;
    RoundTrip(consumeTrailer, blocks, extra, cuts);
    ret, out, tail := DecodePieces(consumeTrailer, cuts);
  }
}
