/**
 * UTF-8, the character encoding Python's str.encode() uses by default,
 * as section 3 of RFC 3629 defines it: a Unicode scalar value becomes one
 * to four octets. The decoder accepts exactly the octet sequences that the
 * syntax in section 4 of RFC 3629 allows (no overlong forms, no surrogates,
 * nothing above U+10FFFF), so that it is the inverse of the encoder in both
 * directions.
 */
module Utf8 {
  import opened Wrappers

  /** The value of a character: a Unicode scalar value. */
  function Value(c: char): int { c as int }

  /** True for an octet of the form 10xxxxxx. */
  predicate IsContinuation(b: Byte) { 0x80 <= b < 0xC0 }

  /** The number of octets that a sequence starting with lead octet `b` has; 0 if `b` cannot start one. */
  function LeadLength(b: Byte): nat
  {
    if b < 0x80 then 1
    else if 0xC0 <= b < 0xE0 then 2
    else if 0xE0 <= b < 0xF0 then 3
    else if 0xF0 <= b < 0xF8 then 4
    else 0
  }

  /** The least scalar value that needs `n` octets (the row of RFC 3629's table that has `n` octets). */
  function MinValue(n: nat): int
    requires 1 <= n <= 4
  {
    if n == 1 then 0 else if n == 2 then 0x80 else if n == 3 then 0x800 else 0x10000
  }

  /** The octets of one character: a lead octet announcing the length, then continuation octets. */
  function EncodeChar(c: char): (r: seq<Byte>)
    ensures 1 <= |r| <= 4
    ensures LeadLength(r[0]) == |r|
    ensures forall i :: 1 <= i < |r| ==> IsContinuation(r[i])
    ensures MinValue(|r|) <= Value(c) && (|r| < 4 ==> Value(c) < MinValue(|r| + 1))
  {
    var v := Value(c);
    if v < 0x80 then [v]
    else if v < 0x800 then [0xC0 + v / 0x40, 0x80 + v % 0x40]
    else if v < 0x10000 then [0xE0 + v / 0x1000, 0x80 + v / 0x40 % 0x40, 0x80 + v % 0x40]
    else [0xF0 + v / 0x40000, 0x80 + v / 0x1000 % 0x40, 0x80 + v / 0x40 % 0x40, 0x80 + v % 0x40]
  }

  /** The octets of a text: the octets of its characters, in order. */
  function Encode(s: string): (r: seq<Byte>)
    ensures |r| >= |s|
  {
    if s == [] then [] else EncodeChar(s[0]) + Encode(s[1..])
  }

  /** True when every octet `b[1..n]` is a continuation octet. */
  predicate ContinuationsFollow(b: seq<Byte>, n: nat)
    requires n <= |b|
  {
    forall i :: 1 <= i < n ==> IsContinuation(b[i])
  }

  /** The scalar value that the first `n` octets of `b` spell, lead and continuation bits put together. */
  function Assemble(b: seq<Byte>, n: nat): int
    requires 1 <= n <= 4 && n <= |b| && LeadLength(b[0]) == n
  {
    if n == 1 then b[0] as int
    else if n == 2 then (b[0] as int - 0xC0) * 0x40 + Payload(b[1])
    else if n == 3 then (b[0] as int - 0xE0) * 0x1000 + Payload(b[1]) * 0x40 + Payload(b[2])
    else (b[0] as int - 0xF0) * 0x40000 + Payload(b[1]) * 0x1000 + Payload(b[2]) * 0x40 + Payload(b[3])
  }

  /** The six payload bits of a continuation octet. */
  function Payload(b: Byte): int { b as int - 0x80 }

  /** The first character of `b` and the number of octets it takes, or None if `b` does not start with a well-formed sequence. */
  function DecodeFirst(b: seq<Byte>): (r: Option<(char, nat)>)
    requires |b| > 0
    ensures r.Some? ==> 1 <= r.value.1 <= 4 && r.value.1 <= |b| && r.value.1 == LeadLength(b[0])
  {
    var n := LeadLength(b[0]);
    if n == 0 || |b| < n || !ContinuationsFollow(b, n) then None
    else
      var v := Assemble(b, n);
      if v < MinValue(n) || 0x10FFFF < v || 0xD800 <= v < 0xE000 then None
      else Some((v as char, n))
  }

  /** The text that `b` encodes, or None if `b` is not well-formed UTF-8. */
  function Decode(b: seq<Byte>): Option<string>
    decreases |b|
  {
    if b == [] then Some([])
    else match DecodeFirst(b)
      case None => None
      case Some((c, n)) =>
        match Decode(b[n..])
        case None => None
        case Some(rest) => Some([c] + rest)
  }

  /** Decoding the two-octet encoding of `c`, whatever follows it, gives back `c`. */
  lemma DecodeFirstTwo(c: char, rest: seq<Byte>)
    requires 0x80 <= Value(c) < 0x800
    ensures DecodeFirst(EncodeChar(c) + rest) == Some((c, 2))
  {
    var v := Value(c);
    var b := EncodeChar(c) + rest;
    assert b[0] == 0xC0 + v / 0x40 && b[1] == 0x80 + v % 0x40;
    assert ContinuationsFollow(b, 2);
    assert Assemble(b, 2) == v;
  }

  /** Decoding the three-octet encoding of `c`, whatever follows it, gives back `c`. */
  lemma DecodeFirstThree(c: char, rest: seq<Byte>)
    requires 0x800 <= Value(c) < 0x10000
    ensures DecodeFirst(EncodeChar(c) + rest) == Some((c, 3))
  {
    var v := Value(c);
    var b := EncodeChar(c) + rest;
    assert b[0] == 0xE0 + v / 0x1000 && b[1] == 0x80 + v / 0x40 % 0x40 && b[2] == 0x80 + v % 0x40;
    assert ContinuationsFollow(b, 3);
    assert v / 0x40 == (v / 0x1000) * 0x40 + v / 0x40 % 0x40;
    assert Assemble(b, 3) == v;
  }

  /** Decoding the four-octet encoding of `c`, whatever follows it, gives back `c`. */
  lemma DecodeFirstFour(c: char, rest: seq<Byte>)
    requires 0x10000 <= Value(c)
    ensures DecodeFirst(EncodeChar(c) + rest) == Some((c, 4))
  {
    var v := Value(c);
    var b := EncodeChar(c) + rest;
    assert b[0] == 0xF0 + v / 0x40000 && b[1] == 0x80 + v / 0x1000 % 0x40;
    assert b[2] == 0x80 + v / 0x40 % 0x40 && b[3] == 0x80 + v % 0x40;
    assert ContinuationsFollow(b, 4);
    assert v / 0x1000 == (v / 0x40000) * 0x40 + v / 0x1000 % 0x40;
    assert v / 0x40 == (v / 0x1000) * 0x40 + v / 0x40 % 0x40;
    assert Assemble(b, 4) == v;
  }

  /** Decoding the encoding of a character, whatever follows it, gives back that character and its length. */
  lemma DecodeFirstEncodeChar(c: char, rest: seq<Byte>)
    ensures DecodeFirst(EncodeChar(c) + rest) == Some((c, |EncodeChar(c)|))
  {
    var v := Value(c);
    if v < 0x80 {
    } else if v < 0x800 {
      DecodeFirstTwo(c, rest);
    } else if v < 0x10000 {
      DecodeFirstThree(c, rest);
    } else {
      DecodeFirstFour(c, rest);
    }
  }

  /** A well-formed two-octet sequence is the encoding of the character it spells. */
  lemma EncodeCharAssembleTwo(b: seq<Byte>)
    requires 2 <= |b| && LeadLength(b[0]) == 2 && IsContinuation(b[1])
    requires 0x80 <= Assemble(b, 2)
    ensures EncodeChar(Assemble(b, 2) as char) == b[..2]
  {
    var v := Assemble(b, 2);
    SplitSixBits(b[0] - 0xC0, Payload(b[1]));
    assert v / 0x40 == b[0] - 0xC0 && v % 0x40 == Payload(b[1]);
  }

  /** A well-formed three-octet sequence is the encoding of the character it spells. */
  lemma EncodeCharAssembleThree(b: seq<Byte>)
    requires 3 <= |b| && LeadLength(b[0]) == 3 && IsContinuation(b[1]) && IsContinuation(b[2])
    requires 0x800 <= Assemble(b, 3) && !(0xD800 <= Assemble(b, 3) < 0xE000)
    ensures EncodeChar(Assemble(b, 3) as char) == b[..3]
  {
    var v := Assemble(b, 3);
    var hi := (b[0] - 0xE0) * 0x40 + Payload(b[1]);
    assert v == hi * 0x40 + Payload(b[2]);
    SplitSixBits(hi, Payload(b[2]));
    SplitSixBits(b[0] - 0xE0, Payload(b[1]));
    assert v / 0x40 == hi && v % 0x40 == Payload(b[2]);
    assert v / 0x1000 == hi / 0x40;
  }

  /** A well-formed four-octet sequence is the encoding of the character it spells. */
  lemma EncodeCharAssembleFour(b: seq<Byte>)
    requires 4 <= |b| && LeadLength(b[0]) == 4
    requires IsContinuation(b[1]) && IsContinuation(b[2]) && IsContinuation(b[3])
    requires 0x10000 <= Assemble(b, 4) <= 0x10FFFF
    ensures EncodeChar(Assemble(b, 4) as char) == b[..4]
  {
    var v := Assemble(b, 4);
    var top := (b[0] - 0xF0) * 0x40 + Payload(b[1]);
    var hi := top * 0x40 + Payload(b[2]);
    assert v == hi * 0x40 + Payload(b[3]);
    SplitSixBits(hi, Payload(b[3]));
    SplitSixBits(top, Payload(b[2]));
    SplitSixBits(b[0] - 0xF0, Payload(b[1]));
    assert v / 0x40 == hi && v % 0x40 == Payload(b[3]);
    assert v / 0x1000 == hi / 0x40 == top;
    assert v / 0x40000 == top / 0x40;
  }

  /** A well-formed sequence that the decoder reads as `c` is exactly the encoding of `c`. */
  lemma EncodeCharDecodeFirst(b: seq<Byte>)
    requires |b| > 0 && DecodeFirst(b).Some?
    ensures EncodeChar(DecodeFirst(b).value.0) == b[..DecodeFirst(b).value.1]
  {
    var n := LeadLength(b[0]);
    assert ContinuationsFollow(b, n);
    if n == 1 {
    } else if n == 2 {
      assert IsContinuation(b[1]);
      EncodeCharAssembleTwo(b);
    } else if n == 3 {
      assert IsContinuation(b[1]) && IsContinuation(b[2]);
      EncodeCharAssembleThree(b);
    } else {
      assert IsContinuation(b[1]) && IsContinuation(b[2]) && IsContinuation(b[3]);
      EncodeCharAssembleFour(b);
    }
  }

  /** The encoding of any text decodes back to that text (RFC 3629, sections 3 and 4). */
  lemma {:induction false} DecodeEncode(s: string)
    ensures Decode(Encode(s)) == Some(s)
  {
    if s != [] {
      var e := EncodeChar(s[0]);
      DecodeFirstEncodeChar(s[0], Encode(s[1..]));
      assert (e + Encode(s[1..]))[|e|..] == Encode(s[1..]);
      DecodeEncode(s[1..]);
      assert [s[0]] + s[1..] == s;
    }
  }

  /** Whatever the decoder accepts is the encoding of the text it returns: the decoder is strict. */
  lemma {:induction false} EncodeDecode(b: seq<Byte>)
    requires Decode(b).Some?
    ensures Encode(Decode(b).value) == b
    decreases |b|
  {
    if b != [] {
      var c := DecodeFirst(b).value.0;
      var n := DecodeFirst(b).value.1;
      var rest := Decode(b[n..]).value;
      EncodeCharDecodeFirst(b);
      EncodeDecode(b[n..]);
      assert Decode(b).value == [c] + rest;
      EncodeCons(c, rest);
      SplitAt(b, n);
    }
  }

  /** The encoding of a character followed by a text is the character's octets followed by the text's. */
  lemma EncodeCons(c: char, s: string)
    ensures Encode([c] + s) == EncodeChar(c) + Encode(s)
  {
    assert ([c] + s)[1..] == s;
  }

  /** Encoding distributes over concatenation of texts. */
  lemma {:induction false} EncodeAppend(s: string, t: string)
    ensures Encode(s + t) == Encode(s) + Encode(t)
  {
    if s == [] {
      assert s + t == t;
    } else {
      var h, u := s[0], s[1..];
      assert s + t == [h] + (u + t);
      EncodeCons(h, u + t);
      EncodeAppend(u, t);
      assert Encode(s) == EncodeChar(h) + Encode(u);
      Associative(EncodeChar(h), Encode(u), Encode(t));
    }
  }

  /** A text encodes into one octet per character exactly when it is ASCII, and then the octets are the characters' values. */
  lemma {:induction false} EncodeAscii(s: string)
    ensures |Encode(s)| == |s| <==> forall i :: 0 <= i < |s| ==> Value(s[i]) < 0x80
    ensures (forall i :: 0 <= i < |s| ==> Value(s[i]) < 0x80) ==>
              forall i :: 0 <= i < |s| ==> Encode(s)[i] == Value(s[i])
  {
    if s != [] {
      EncodeAscii(s[1..]);
      assert forall i :: 1 <= i < |s| ==> s[i] == s[1..][i - 1];
    }
  }
}
