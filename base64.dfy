/**
 * Base 64 encoding as section 4 of RFC 4648 defines it (what Python's
 * base64.b64encode produces): each group of three octets becomes four
 * characters of the 64-character alphabet of Table 1, and a final group of
 * one or two octets is completed with '=' padding. The decoder accepts only
 * canonical encodings (section 3.5 of RFC 4648: the bits that padding
 * leaves over are zero), so that it is the inverse of the encoder in both
 * directions.
 */
module Base64 {
  import opened Wrappers

  /** A six-bit value: an index into the alphabet. */
  type Sextet = i: int | 0 <= i < 0x40

  /** True for the 64 characters of the alphabet of Table 1 (the pad character '=' is not one of them). */
  predicate IsAlphabetChar(c: char)
  {
    'A' <= c <= 'Z' || 'a' <= c <= 'z' || '0' <= c <= '9' || c == '+' || c == '/'
  }

  /** The character that encodes `i`, by Table 1. */
  function IndexToChar(i: Sextet): (c: char)
    ensures IsAlphabetChar(c)
  {
    if i < 26 then ('A' as int + i) as char
    else if i < 52 then ('a' as int + (i - 26)) as char
    else if i < 62 then ('0' as int + (i - 52)) as char
    else if i == 62 then '+'
    else '/'
  }

  /** The value that the character `c` encodes, or None if `c` is not in the alphabet. */
  function CharToIndex(c: char): (r: Option<Sextet>)
    ensures r.Some? <==> IsAlphabetChar(c)
  {
    if 'A' <= c <= 'Z' then Some(c as int - 'A' as int)
    else if 'a' <= c <= 'z' then Some(c as int - 'a' as int + 26)
    else if '0' <= c <= '9' then Some(c as int - '0' as int + 52)
    else if c == '+' then Some(62)
    else if c == '/' then Some(63)
    else None
  }

  /** Reading back the character that encodes `i` gives `i`. */
  lemma CharOfIndex(i: Sextet)
    ensures CharToIndex(IndexToChar(i)) == Some(i)
  {
  }

  /** Writing the value of an alphabet character gives that character. */
  lemma IndexOfChar(c: char)
    requires CharToIndex(c).Some?
    ensures IndexToChar(CharToIndex(c).value) == c
  {
  }

  /** The four characters of a full group of three octets. */
  function EncodeGroup(b0: Byte, b1: Byte, b2: Byte): seq<char>
  {
    [IndexToChar(b0 / 4), IndexToChar(b0 % 4 * 16 + b1 / 16),
     IndexToChar(b1 % 16 * 4 + b2 / 64), IndexToChar(b2 % 64)]
  }

  /** The four characters of a final group of two octets: three characters and one '='. */
  function EncodeTwo(b0: Byte, b1: Byte): seq<char>
  {
    [IndexToChar(b0 / 4), IndexToChar(b0 % 4 * 16 + b1 / 16), IndexToChar(b1 % 16 * 4), '=']
  }

  /** The four characters of a final group of one octet: two characters and "==". */
  function EncodeOne(b0: Byte): seq<char>
  {
    [IndexToChar(b0 / 4), IndexToChar(b0 % 4 * 16), '=', '=']
  }

  /** The Base 64 encoding of `b`, groups of three octets from the front. */
  function Encode(b: seq<Byte>): (r: seq<char>)
    ensures |r| == 4 * ((|b| + 2) / 3)
    decreases |b|
  {
    if |b| == 0 then []
    else if |b| == 1 then EncodeOne(b[0])
    else if |b| == 2 then EncodeTwo(b[0], b[1])
    else
      PadStep(|b|);
      EncodeGroup(b[0], b[1], b[2]) + Encode(b[3..])
  }

  /** The number of '=' characters that end the encoding of `n` octets. */
  function PadLength(n: nat): nat { (3 - n % 3) % 3 }

  /** True when `r` consists of alphabet characters followed by exactly `pad` '=' characters. */
  predicate IsPadded(r: seq<char>, pad: nat)
  {
    pad <= |r| &&
    (forall i :: 0 <= i < |r| - pad ==> IsAlphabetChar(r[i])) &&
    (forall i :: |r| - pad <= i < |r| ==> r[i] == '=')
  }

  /**
   * All characters of the encoding of B octets are alphabet characters
   * except the last PadLength(B), which are '='; there are at most two.
   */
  lemma {:induction false} EncodeShape(b: seq<Byte>)
    ensures PadLength(|b|) <= 2
    ensures IsPadded(Encode(b), PadLength(|b|))
    decreases |b|
  {
    if |b| == 1 {
      ShortPadded(b[0], 0, false);
    } else if |b| == 2 {
      ShortPadded(b[0], b[1], true);
    } else if |b| > 2 {
      var g, rest := EncodeGroup(b[0], b[1], b[2]), Encode(b[3..]);
      assert Encode(b) == g + rest;
      EncodeShape(b[3..]);
      PadStep(|b|);
      GroupAlphabet(b[0], b[1], b[2]);
      PaddedPrepend(g, rest, PadLength(|b|));
    }
  }

  /** A final group of one or two octets is padded with "==" or "=". */
  lemma ShortPadded(b0: Byte, b1: Byte, two: bool)
    ensures two ==> IsPadded(EncodeTwo(b0, b1), 1)
    ensures !two ==> IsPadded(EncodeOne(b0), 2)
  {
    if two {
      var r := EncodeTwo(b0, b1);
      assert IsAlphabetChar(r[0]) && IsAlphabetChar(r[1]) && IsAlphabetChar(r[2]) && r[3] == '=';
      forall i | 0 <= i < 4 ensures i < 3 ==> IsAlphabetChar(r[i]) ensures i == 3 ==> r[i] == '=' {
        if i == 0 {} else if i == 1 {} else if i == 2 {} else {}
      }
    } else {
      var r := EncodeOne(b0);
      assert IsAlphabetChar(r[0]) && IsAlphabetChar(r[1]) && r[2] == '=' && r[3] == '=';
      forall i | 0 <= i < 4 ensures i < 2 ==> IsAlphabetChar(r[i]) ensures 2 <= i ==> r[i] == '=' {
        if i == 0 {} else if i == 1 {} else if i == 2 {} else {}
      }
    }
  }

  /** Alphabet characters put in front of a padded text leave it padded. */
  lemma PaddedPrepend(g: seq<char>, rest: seq<char>, pad: nat)
    requires forall k :: 0 <= k < |g| ==> IsAlphabetChar(g[k])
    requires IsPadded(rest, pad)
    ensures IsPadded(g + rest, pad)
  {
    var r := g + rest;
    forall i | 0 <= i < |r|
      ensures i < |r| - pad ==> IsAlphabetChar(r[i])
      ensures |r| - pad <= i ==> r[i] == '='
    {
      if i >= |g| {
        assert r[i] == rest[i - |g|];
      }
    }
  }

  /** Three more octets add one group of four characters and leave the padding as it was. */
  lemma PadStep(n: nat)
    requires n > 2
    ensures PadLength(n) == PadLength(n - 3) <= 2
    ensures 4 * ((n + 2) / 3) == 4 + 4 * ((n - 3 + 2) / 3)
  {
  }

  /** The four characters of a full group are alphabet characters. */
  lemma GroupAlphabet(b0: Byte, b1: Byte, b2: Byte)
    ensures forall k :: 0 <= k < 4 ==> IsAlphabetChar(EncodeGroup(b0, b1, b2)[k])
  {
    var g := EncodeGroup(b0, b1, b2);
    assert IsAlphabetChar(g[0]) && IsAlphabetChar(g[1]) && IsAlphabetChar(g[2]) && IsAlphabetChar(g[3]);
    forall k | 0 <= k < 4 ensures IsAlphabetChar(g[k]) {
      if k == 0 {} else if k == 1 {} else if k == 2 {} else {}
    }
  }

  /** The three octets that four alphabet values spell. */
  function DecodeGroup(s0: Sextet, s1: Sextet, s2: Sextet, s3: Sextet): seq<Byte>
  {
    [s0 * 4 + s1 / 16, s1 % 16 * 16 + s2 / 4, s2 % 4 * 64 + s3]
  }

  /** The octets of one group of four characters, or None if it is not a canonical group; `last` allows padding. */
  function DecodeQuad(q: seq<char>, last: bool): Option<seq<Byte>>
    requires |q| == 4
  {
    var i0, i1 := CharToIndex(q[0]), CharToIndex(q[1]);
    if i0.None? || i1.None? then None
    else if last && q[2] == '=' && q[3] == '=' then
      if i1.value % 16 == 0 then Some([i0.value * 4 + i1.value / 16]) else None
    else
      var i2 := CharToIndex(q[2]);
      if i2.None? then None
      else if last && q[3] == '=' then
        if i2.value % 4 == 0 then Some([i0.value * 4 + i1.value / 16, i1.value % 16 * 16 + i2.value / 4])
        else None
      else
        var i3 := CharToIndex(q[3]);
        if i3.None? then None
        else Some(DecodeGroup(i0.value, i1.value, i2.value, i3.value))
  }

  /** The octets that `s` encodes, or None if `s` is not a canonical padded Base 64 text. */
  function Decode(s: seq<char>): Option<seq<Byte>>
    decreases |s|
  {
    if |s| == 0 then Some([])
    else if |s| < 4 then None
    else if |s| == 4 then DecodeQuad(s, true)
    else match DecodeQuad(s[..4], false)
      case None => None
      case Some(g) =>
        match Decode(s[4..])
        case None => None
        case Some(rest) => Some(g + rest)
  }

  /** Splitting `q * 16 + r` by 16 gives back `q` and `r`. */
  lemma SplitFourBits(q: int, r: int)
    requires 0 <= q && 0 <= r < 16
    ensures (q * 16 + r) / 16 == q && (q * 16 + r) % 16 == r
  {
  }

  /** Splitting `q * 4 + r` by 4 gives back `q` and `r`. */
  lemma SplitTwoBits(q: int, r: int)
    requires 0 <= q && 0 <= r < 4
    ensures (q * 4 + r) / 4 == q && (q * 4 + r) % 4 == r
  {
  }

  /** The sextets of a group put back together give its octets. */
  lemma RegroupSextets(b0: Byte, b1: Byte, b2: Byte)
    ensures DecodeGroup(b0 / 4, b0 % 4 * 16 + b1 / 16, b1 % 16 * 4 + b2 / 64, b2 % 64) == [b0, b1, b2]
  {
    SplitFourBits(b0 % 4, b1 / 16);
    SplitTwoBits(b1 % 16, b2 / 64);
  }

  /** A full group decodes back to its three octets. */
  lemma DecodeEncodeGroup(b0: Byte, b1: Byte, b2: Byte, last: bool)
    ensures DecodeQuad(EncodeGroup(b0, b1, b2), last) == Some([b0, b1, b2])
  {
    var s0, s1, s2, s3 := b0 / 4, b0 % 4 * 16 + b1 / 16, b1 % 16 * 4 + b2 / 64, b2 % 64;
    var q := EncodeGroup(b0, b1, b2);
    CharOfIndex(s0);
    CharOfIndex(s1);
    CharOfIndex(s2);
    CharOfIndex(s3);
    assert CharToIndex(q[0]) == Some(s0) && CharToIndex(q[1]) == Some(s1);
    assert CharToIndex(q[2]) == Some(s2) && CharToIndex(q[3]) == Some(s3);
    assert q[2] != '=' && q[3] != '=';
    RegroupSextets(b0, b1, b2);
  }

  /** A final group of two octets decodes back to them. */
  lemma DecodeEncodeTwo(b0: Byte, b1: Byte)
    ensures Decode(Encode([b0, b1])) == Some([b0, b1])
  {
    var s0, s1, s2 := b0 / 4, b0 % 4 * 16 + b1 / 16, b1 % 16 * 4;
    var q := EncodeTwo(b0, b1);
    CharOfIndex(s0);
    CharOfIndex(s1);
    CharOfIndex(s2);
    assert CharToIndex(q[0]) == Some(s0) && CharToIndex(q[1]) == Some(s1) && CharToIndex(q[2]) == Some(s2);
    assert q[2] != '=';
    SplitFourBits(b0 % 4, b1 / 16);
    SplitTwoBits(b1 % 16, 0);
  }

  /** A final group of one octet decodes back to it. */
  lemma DecodeEncodeOne(b0: Byte)
    ensures Decode(Encode([b0])) == Some([b0])
  {
    var q := EncodeOne(b0);
    CharOfIndex(b0 / 4);
    CharOfIndex(b0 % 4 * 16);
    SplitFourBits(b0 % 4, 0);
  }

  /** Decoding a full group followed by more text decodes the group and then the rest. */
  lemma DecodeGroupThenRest(b0: Byte, b1: Byte, b2: Byte, rest: seq<char>, tail: seq<Byte>)
    requires |rest| > 0 && Decode(rest) == Some(tail)
    ensures Decode(EncodeGroup(b0, b1, b2) + rest) == Some([b0, b1, b2] + tail)
  {
    var g := EncodeGroup(b0, b1, b2);
    var s := g + rest;
    assert s[..4] == g && s[4..] == rest;
    DecodeEncodeGroup(b0, b1, b2, false);
  }

  /** A text of exactly one full group decodes back to its three octets. */
  lemma DecodeEncodeThree(b0: Byte, b1: Byte, b2: Byte)
    ensures Decode(Encode([b0, b1, b2])) == Some([b0, b1, b2])
  {
    var g := EncodeGroup(b0, b1, b2);
    DecodeEncodeGroup(b0, b1, b2, true);
    assert [b0, b1, b2][3..] == [];
    AppendEmpty(g);
    assert Encode([b0, b1, b2]) == g + [];
  }

  /** The encoding of more than three octets starts with the encoding of the first three. */
  lemma EncodeFirstGroup(b: seq<Byte>)
    requires |b| > 3
    ensures Encode(b) == EncodeGroup(b[0], b[1], b[2]) + Encode(b[3..])
  {
  }

  /** Every octet string survives Base 64 encoding and decoding unchanged. */
  lemma {:induction false} DecodeEncode(b: seq<Byte>)
    ensures Decode(Encode(b)) == Some(b)
    decreases |b|
  {
    if |b| == 1 {
      assert b == [b[0]];
      DecodeEncodeOne(b[0]);
    } else if |b| == 2 {
      assert b == [b[0], b[1]];
      DecodeEncodeTwo(b[0], b[1]);
    } else if |b| == 3 {
      assert b == [b[0], b[1], b[2]];
      DecodeEncodeThree(b[0], b[1], b[2]);
    } else if |b| > 3 {
      DecodeEncode(b[3..]);
      EncodeFirstGroup(b);
      DecodeGroupThenRest(b[0], b[1], b[2], Encode(b[3..]), b[3..]);
      SplitFirstThree(b);
    }
  }

  /** Four alphabet values decoded and encoded again give the same four characters. */
  lemma EncodeDecodeGroup(i0: Sextet, i1: Sextet, i2: Sextet, i3: Sextet)
    ensures var g := DecodeGroup(i0, i1, i2, i3);
      EncodeGroup(g[0], g[1], g[2]) == [IndexToChar(i0), IndexToChar(i1), IndexToChar(i2), IndexToChar(i3)]
  {
    var g := DecodeGroup(i0, i1, i2, i3);
    SplitTwoBits(i0, i1 / 16);
    SplitFourBits(i1 % 16, i2 / 4);
    SplitSixBits(i2 % 4, i3);
    assert g[0] / 4 == i0 && g[0] % 4 == i1 / 16;
    assert g[1] / 16 == i1 % 16 && g[1] % 16 == i2 / 4;
    assert g[2] / 64 == i2 % 4 && g[2] % 64 == i3;
  }

  /** A canonical group of two octets decoded and encoded again gives the same characters. */
  lemma EncodeDecodeTwo(i0: Sextet, i1: Sextet, i2: Sextet)
    requires i2 % 4 == 0
    ensures i0 * 4 + i1 / 16 < 0x100 && i1 % 16 * 16 + i2 / 4 < 0x100
    ensures EncodeTwo(i0 * 4 + i1 / 16, i1 % 16 * 16 + i2 / 4) == [IndexToChar(i0), IndexToChar(i1), IndexToChar(i2), '=']
  {
    var b0, b1 := i0 * 4 + i1 / 16, i1 % 16 * 16 + i2 / 4;
    SplitTwoBits(i0, i1 / 16);
    SplitFourBits(i1 % 16, i2 / 4);
    assert b1 % 16 * 4 == i2;
  }

  /** A canonical group of one octet decoded and encoded again gives the same characters. */
  lemma EncodeDecodeOne(i0: Sextet, i1: Sextet)
    requires i1 % 16 == 0
    ensures i0 * 4 + i1 / 16 < 0x100
    ensures EncodeOne(i0 * 4 + i1 / 16) == [IndexToChar(i0), IndexToChar(i1), '=', '=']
  {
    SplitTwoBits(i0, i1 / 16);
  }

  /** A group that decodes, encoded again, gives back the group. */
  lemma EncodeDecodeQuad(q: seq<char>, last: bool)
    requires |q| == 4 && DecodeQuad(q, last).Some?
    ensures var g := DecodeQuad(q, last).value;
      1 <= |g| <= 3 && (|g| < 3 ==> last) &&
      q == (if |g| == 1 then EncodeOne(g[0]) else if |g| == 2 then EncodeTwo(g[0], g[1]) else EncodeGroup(g[0], g[1], g[2]))
  {
    if last && q[2] == '=' && q[3] == '=' {
      EncodeDecodeQuadOne(q);
    } else if last && q[3] == '=' {
      EncodeDecodeQuadTwo(q);
    } else {
      EncodeDecodeQuadThree(q, last);
    }
  }

  /** A final group "xx==" that decodes, encoded again, gives back the group. */
  lemma EncodeDecodeQuadOne(q: seq<char>)
    requires |q| == 4 && q[2] == '=' && q[3] == '=' && DecodeQuad(q, true).Some?
    ensures var g := DecodeQuad(q, true).value; |g| == 1 && q == EncodeOne(g[0])
  {
    var i0, i1 := CharToIndex(q[0]).value, CharToIndex(q[1]).value;
    IndexOfChar(q[0]);
    IndexOfChar(q[1]);
    EncodeDecodeOne(i0, i1);
    FourElements(q);
  }

  /** A final group "xxx=" that decodes, encoded again, gives back the group. */
  lemma EncodeDecodeQuadTwo(q: seq<char>)
    requires |q| == 4 && q[2] != '=' && q[3] == '=' && DecodeQuad(q, true).Some?
    ensures var g := DecodeQuad(q, true).value; |g| == 2 && q == EncodeTwo(g[0], g[1])
  {
    DecodeQuadTwo(q);
    var i0, i1, i2 := CharToIndex(q[0]).value, CharToIndex(q[1]).value, CharToIndex(q[2]).value;
    IndexOfChar(q[0]);
    IndexOfChar(q[1]);
    IndexOfChar(q[2]);
    EncodeDecodeTwo(i0, i1, i2);
    FourElements(q);
  }

  /** What a final group "xxx=" decodes to. */
  lemma DecodeQuadTwo(q: seq<char>)
    requires |q| == 4 && q[2] != '=' && q[3] == '=' && DecodeQuad(q, true).Some?
    ensures CharToIndex(q[0]).Some? && CharToIndex(q[1]).Some? && CharToIndex(q[2]).Some?
    ensures var i0, i1, i2 := CharToIndex(q[0]).value as int, CharToIndex(q[1]).value as int, CharToIndex(q[2]).value as int;
      i2 % 4 == 0 && DecodeQuad(q, true).value == [i0 * 4 + i1 / 16, i1 % 16 * 16 + i2 / 4]
  {
  }

  /** A group without padding that decodes, encoded again, gives back the group. */
  lemma EncodeDecodeQuadThree(q: seq<char>, last: bool)
    requires |q| == 4 && q[3] != '=' && DecodeQuad(q, last).Some?
    requires !(last && q[2] == '=' && q[3] == '=')
    ensures var g := DecodeQuad(q, last).value; |g| == 3 && q == EncodeGroup(g[0], g[1], g[2])
  {
    var i0, i1, i2, i3 := CharToIndex(q[0]).value, CharToIndex(q[1]).value, CharToIndex(q[2]).value, CharToIndex(q[3]).value;
    IndexOfChar(q[0]);
    IndexOfChar(q[1]);
    IndexOfChar(q[2]);
    IndexOfChar(q[3]);
    EncodeDecodeGroup(i0, i1, i2, i3);
    FourElements(q);
  }

  /** Whatever the decoder accepts is the encoding of the octets it returns: the decoder accepts canonical text only. */
  lemma {:induction false} EncodeDecode(s: seq<char>)
    requires Decode(s).Some?
    ensures Encode(Decode(s).value) == s
    decreases |s|
  {
    if |s| == 4 {
      EncodeDecodeQuad(s, true);
    } else if |s| > 4 {
      var g := DecodeQuad(s[..4], false).value;
      EncodeDecodeQuad(s[..4], false);
      EncodeDecode(s[4..]);
      EncodeGroupThenRest(g, Decode(s[4..]).value, s[4..]);
      assert s == s[..4] + s[4..];
    }
  }

  /** The encoding of a full group followed by a non-empty rest is the group's characters and then the rest's. */
  lemma EncodeGroupThenRest(g: seq<Byte>, tail: seq<Byte>, rest: seq<char>)
    requires |g| == 3 && Encode(tail) == rest && |rest| > 0
    ensures Encode(g + tail) == EncodeGroup(g[0], g[1], g[2]) + rest
  {
    assert (g + tail)[3..] == tail;
  }
}
