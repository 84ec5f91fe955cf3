/** Small value types and sequence facts shared by the encoder's modules. */
module Wrappers {

  /** A value that may be missing: the result of a decoder that rejects malformed input. */
  datatype Option<+T> = None | Some(value: T)

  /** An octet. */
  type Byte = b: int | 0 <= b < 0x100

  /** Splitting `q * 0x40 + r` into its quotient and remainder by 0x40 gives back `q` and `r`. */
  lemma SplitSixBits(q: int, r: int)
    requires 0 <= q && 0 <= r < 0x40
    ensures (q * 0x40 + r) / 0x40 == q && (q * 0x40 + r) % 0x40 == r
  {
  }

  /** A sequence is its first `n` elements followed by the rest. */
  lemma SplitAt<T>(b: seq<T>, n: nat)
    requires n <= |b|
    ensures b == b[..n] + b[n..]
  {
  }

  /** A sequence of more than three elements is its first three followed by the rest. */
  lemma SplitFirstThree<T>(b: seq<T>)
    requires |b| > 3
    ensures b == [b[0], b[1], b[2]] + b[3..]
  {
  }

  /** A sequence of four elements is the display of its elements. */
  lemma FourElements<T>(q: seq<T>)
    requires |q| == 4
    ensures q == [q[0], q[1], q[2], q[3]]
  {
  }

  /** Appending nothing changes nothing. */
  lemma AppendEmpty<T>(s: seq<T>)
    ensures s + [] == s
  {
  }

  /** Concatenation is associative. */
  lemma Associative<T>(a: seq<T>, b: seq<T>, c: seq<T>)
    ensures a + (b + c) == (a + b) + c
  {
  }
}
