/** Bytes and the few character codes that the wire formats share. */
module Bytes {

  type byte = x: int | 0 <= x < 0x100

  const CR: byte := 13
  const LF: byte := 10
  const HT: byte := 9
  const SPACE: byte := 32
  const HYPHEN: byte := 45
  const COLON: byte := 58
  const DEL: byte := 127

  const CRLF: seq<byte> := [CR, LF]
  const DASHES: seq<byte> := [HYPHEN, HYPHEN]

  /** The codes as characters. */
  lemma Codes()
    ensures CR == '\r' as int && LF == '\n' as int && HT == '\t' as int && SPACE == ' ' as int
    ensures HYPHEN == '-' as int && COLON == ':' as int
  {
  }

  /** The pieces of a cut byte stream, put back together. */
  function Join<T>(cuts: seq<seq<T>>): (r: seq<T>) {
    if cuts == [] then [] else Join(cuts[..|cuts| - 1]) + cuts[|cuts| - 1]
  }

  /** Joining can start from the front. */
  lemma {:induction false} JoinCons<T>(cuts: seq<seq<T>>)
    requires cuts != []
    ensures Join(cuts) == cuts[0] + Join(cuts[1..])
    decreases |cuts|
  {
    var n := |cuts| - 1;
    if n == 0 {
      assert cuts[..0] == [] && cuts[1..] == [];
      assert [] + cuts[0] == cuts[0] + [];
    } else {
      JoinCons(cuts[..n]);
      assert cuts[1..][..n - 1] == cuts[..n][1..] && cuts[1..][n - 1] == cuts[n];
      assert cuts[0] + Join(cuts[..n][1..]) + cuts[n] == cuts[0] + (Join(cuts[..n][1..]) + cuts[n]);
    }
  }
}
