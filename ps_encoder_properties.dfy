/**
 * What powershell_encode guarantees, stated about PsEncoder.EncodedCommand:
 * the markers contribute nothing, the output is padded Base 64 of the
 * expected length, it can be decoded back to the stripped script, and the
 * zero-octet interleaving equals UTF-16LE exactly for ASCII text.
 */
module PsEncoderProperties {
  import opened Wrappers
  import Utf8
  import Base64
  import opened PsEncoder

  /** True when every character of `s` is below U+0080. */
  predicate IsAscii(s: string) { forall i :: 0 <= i < |s| ==> Utf8.Value(s[i]) < 0x80 }

  // ---------------------------------------------------------------------------
  // Markers

  /** The output depends on the input only through its stripped text. */
  lemma EncodedCommandOfStripped(data: string)
    ensures EncodedCommand(Strip(data)) == EncodedCommand(data)
  {
    StripIdempotent(data);
  }

  /** A marker inserted anywhere in the input leaves the output unchanged. */
  lemma MarkerContributesNothing(before: string, m: char, after: string)
    requires IsMarker(m)
    ensures EncodedCommand(before + [m] + after) == EncodedCommand(before + after)
  {
    StripSkipsMarker(before, m, after);
  }

  /** Stripping a text with a marker inserted gives what stripping the text gives. */
  lemma StripSkipsMarker(before: string, m: char, after: string)
    requires IsMarker(m)
    ensures Strip(before + [m] + after) == Strip(before + after)
  {
    StripAppend(before + [m], after);
    StripAppend(before, [m]);
    StripAppend(before, after);
    assert Strip([m]) == [];
  }

  /** The output is empty exactly when the input holds nothing but markers (in particular for the empty input). */
  lemma EmptyCommand(data: string)
    ensures EncodedCommand(data) == [] <==> forall i :: 0 <= i < |data| ==> IsMarker(data[i])
  {
    StripEmpty(data);
    var s := Strip(data);
    assert |Utf8.Encode(Interleave(s))| >= 2 * |s|;
  }

  // ---------------------------------------------------------------------------
  // Shape of the output

  /**
   * With B the number of UTF-8 octets of the interleaved text, the output has
   * 4 * ceil(B / 3) characters, all from the Base 64 alphabet except at most
   * two final '=' characters.
   */
  lemma OutputShape(data: string)
    ensures var b := |CommandOctets(data)|; var r := EncodedCommand(data);
      |r| == 4 * ((b + 2) / 3) &&
      Base64.PadLength(b) <= 2 &&
      Base64.IsPadded(r, Base64.PadLength(b))
  {
    Base64.EncodeShape(CommandOctets(data));
  }

  /** B is at least twice the stripped length, and equal to it exactly when the stripped text is ASCII. */
  lemma OctetCount(data: string)
    ensures |CommandOctets(data)| >= 2 * |Strip(data)|
    ensures |CommandOctets(data)| == 2 * |Strip(data)| <==> IsAscii(Strip(data))
  {
    WidenedLength(Strip(data));
  }

  // ---------------------------------------------------------------------------
  // Decoding the output

  /** True when every character at an odd position of `t` is U+0000 and `t` has even length. */
  predicate IsInterleaved(t: string)
  {
    |t| % 2 == 0 && forall i :: 0 <= i < |t| && i % 2 == 1 ==> t[i] == '\0'
  }

  /**
   * What a reader of the output recovers: Base 64 decoding, UTF-8 decoding,
   * then every other character; None when a step fails or a character at an
   * odd position is not U+0000.
   */
  function DecodeCommand(command: string): Option<string>
  {
    match Base64.Decode(command)
    case None => None
    case Some(octets) =>
      match Utf8.Decode(octets)
      case None => None
      case Some(t) => if IsInterleaved(t) then Some(EvenPositions(t)) else None
  }

  /** The interleaved text has U+0000 at every odd position. */
  lemma InterleaveIsInterleaved(s: string)
    ensures IsInterleaved(Interleave(s))
  {
    var t := Interleave(s);
    InterleaveAt(s);
    forall i | 0 <= i < |t| && i % 2 == 1 ensures t[i] == '\0' {
      assert i == 2 * (i / 2) + 1;
    }
  }

  /** Decoding succeeds with the even positions of `t` when each of its steps does. */
  lemma DecodeCommandSteps(command: string, octets: seq<Byte>, t: string)
    requires Base64.Decode(command) == Some(octets) && Utf8.Decode(octets) == Some(t) && IsInterleaved(t)
    ensures DecodeCommand(command) == Some(EvenPositions(t))
  {
  }

  /** Every output decodes back to the stripped input. */
  lemma DecodeEncodedCommand(data: string)
    ensures DecodeCommand(EncodedCommand(data)) == Some(Strip(data))
  {
    var s := Strip(data);
    var t := Interleave(s);
    var octets := Utf8.Encode(t);
    Base64.DecodeEncode(octets);
    Utf8.DecodeEncode(t);
    InterleaveIsInterleaved(s);
    DecodeCommandSteps(EncodedCommand(data), octets, t);
    Deinterleave(s);
  }

  /** An interleaved text is the interleaving of its characters at even positions. */
  lemma InterleaveEvenPositions(t: string)
    requires IsInterleaved(t)
    ensures Interleave(EvenPositions(t)) == t
  {
    var e := EvenPositions(t);
    var u := Interleave(e);
    assert |u| == |t| by {
      assert |t| == 2 * (|t| / 2);
    }
    forall j | 0 <= j < |t| ensures u[j] == t[j] {
      InterleaveAtOne(e, j / 2);
      if j % 2 == 0 {
        assert j == 2 * (j / 2);
      } else {
        assert j == 2 * (j / 2) + 1;
      }
    }
  }

  /** Position 2k of the interleaving holds the k-th character and position 2k+1 holds U+0000. */
  lemma InterleaveAtOne(s: string, k: int)
    requires 0 <= k < |s|
    ensures Interleave(s)[2 * k] == s[k] && Interleave(s)[2 * k + 1] == '\0'
  {
    InterleaveAt(s);
  }

  /** A text that decodes to a marker-free script is exactly the output for that script. */
  lemma EncodeDecodedCommand(command: string, script: string)
    requires DecodeCommand(command) == Some(script) && MarkerFree(script)
    ensures EncodedCommand(script) == command
  {
    var octets := Base64.Decode(command).value;
    var t := Utf8.Decode(octets).value;
    Base64.EncodeDecode(command);
    Utf8.EncodeDecode(octets);
    InterleaveEvenPositions(t);
    StripUnchanged(script);
  }

  /** Two inputs give the same output exactly when they agree once stripped. */
  lemma SameCommand(a: string, b: string)
    ensures EncodedCommand(a) == EncodedCommand(b) <==> Strip(a) == Strip(b)
  {
    DecodeEncodedCommand(a);
    DecodeEncodedCommand(b);
  }

  /**
   * For ASCII text the Base 64 decoding of the output is c0, 0, c1, 0, ...:
   * each character's value followed by a zero octet, and the octets at even
   * positions are the stripped text.
   */
  lemma AsciiRoundTrip(data: string)
    requires IsAscii(Strip(data))
    ensures var s := Strip(data); var o := CommandOctets(data);
      Base64.Decode(EncodedCommand(data)) == Some(o) &&
      |o| == 2 * |s| &&
      (forall i :: 0 <= i < |s| ==> o[2 * i] == Utf8.Value(s[i]) && o[2 * i + 1] == 0) &&
      |EvenPositions(o)| == |s| &&
      (forall i :: 0 <= i < |s| ==> EvenPositions(o)[i] == Utf8.Value(s[i]))
  {
    var s := Strip(data);
    Base64.DecodeEncode(CommandOctets(data));
    AsciiOctets(s);
  }

  /** Interleaving an ASCII text gives an ASCII text. */
  lemma InterleaveAscii(s: string)
    requires IsAscii(s)
    ensures IsAscii(Interleave(s))
  {
    var t := Interleave(s);
    InterleaveAt(s);
    forall j | 0 <= j < |t| ensures Utf8.Value(t[j]) < 0x80 {
      var k := j / 2;
      if j % 2 == 0 {
        assert j == 2 * k;
        assert t[2 * k] == s[k];
      } else {
        assert j == 2 * k + 1;
        assert t[2 * k + 1] == '\0';
      }
    }
  }

  /** The UTF-8 form of an interleaved ASCII text is c0, 0, c1, 0, ... */
  lemma AsciiOctets(s: string)
    requires IsAscii(s)
    ensures var o := Utf8.Encode(Interleave(s));
      |o| == 2 * |s| &&
      forall i :: 0 <= i < |s| ==> o[2 * i] == Utf8.Value(s[i]) && o[2 * i + 1] == 0
  {
    var t := Interleave(s);
    InterleaveAscii(s);
    Utf8.EncodeAscii(t);
    InterleaveAt(s);
    var o := Utf8.Encode(t);
    forall i | 0 <= i < |s| ensures o[2 * i] == Utf8.Value(s[i]) && o[2 * i + 1] == 0 {
      assert o[2 * i] == Utf8.Value(t[2 * i]);
      assert o[2 * i + 1] == Utf8.Value(t[2 * i + 1]);
    }
  }

  // ---------------------------------------------------------------------------
  // The widening is not UTF-16LE beyond ASCII

  /** The octets the encoder produces for `s`: each character's UTF-8 form, then one zero octet. */
  function Widened(s: string): seq<Byte>
  {
    if s == [] then [] else Widened(s[..|s| - 1]) + Utf8.EncodeChar(s[|s| - 1]) + [0]
  }

  /** The UTF-8 form of the interleaved text is the widening of the text. */
  lemma {:induction false} OctetsAreWidened(s: string)
    ensures Utf8.Encode(Interleave(s)) == Widened(s)
  {
    if s != [] {
      var p, c := s[..|s| - 1], s[|s| - 1];
      OctetsAreWidened(p);
      Utf8.EncodeAppend(Interleave(p), [c, '\0']);
      assert [c, '\0'][1..] == ['\0'];
      assert Utf8.Encode(['\0']) == [0] + Utf8.Encode([]);
    }
  }

  /** The example of U+00E9: its output octets are C3 A9 00, where UTF-16LE has E9 00. */
  lemma NonAsciiExample()
    ensures CommandOctets("\U{E9}") == [0xC3, 0xA9, 0x00]
    ensures Utf16Le("\U{E9}") == [0xE9, 0x00]
    ensures EncodedCommand("\U{E9}") == "w6kA"
  {
    OctetsE9();
    Utf16LeE9();
    Base64E9();
  }

  /** The UTF-16LE form of U+00E9: E9 00. */
  lemma Utf16LeE9()
    ensures Utf16Le("\U{E9}") == [0xE9, 0x00]
  {
    assert Utf16Le("\U{E9}") == Utf16Le([]) + Utf16LeChar('\U{E9}');
  }

  /** The octets of U+00E9: C3 A9 00. */
  lemma OctetsE9()
    ensures CommandOctets("\U{E9}") == [0xC3, 0xA9, 0x00]
  {
    assert Strip("\U{E9}") == "\U{E9}";
    OctetsAreWidened("\U{E9}");
    assert Widened("\U{E9}") == Widened([]) + Utf8.EncodeChar('\U{E9}') + [0];
  }

  /** The Base 64 form of C3 A9 00. */
  lemma Base64E9()
    ensures Base64.Encode([0xC3, 0xA9, 0x00]) == "w6kA"
  {
    assert Base64.IndexToChar(48) == 'w' && Base64.IndexToChar(58) == '6';
    assert Base64.IndexToChar(36) == 'k' && Base64.IndexToChar(0) == 'A';
    assert Base64.EncodeGroup(0xC3, 0xA9, 0x00) == "w6kA";
    assert Base64.Encode([0xC3, 0xA9, 0x00]) == Base64.EncodeGroup(0xC3, 0xA9, 0x00) + Base64.Encode([]);
  }

  /** The UTF-16LE form of one character: one code unit or a surrogate pair, low octet first. */
  function Utf16LeChar(c: char): (r: seq<Byte>)
    ensures |r| == if Utf8.Value(c) < 0x10000 then 2 else 4
  {
    var v := Utf8.Value(c);
    if v < 0x10000 then [v % 0x100, v / 0x100]
    else
      var high := 0xD800 + (v - 0x10000) / 0x400;
      var low := 0xDC00 + (v - 0x10000) % 0x400;
      [high % 0x100, high / 0x100, low % 0x100, low / 0x100]
  }

  /** The UTF-16LE form of a text, which is what -EncodedCommand expects before Base 64. */
  function Utf16Le(s: string): seq<Byte>
  {
    if s == [] then [] else Utf16Le(s[..|s| - 1]) + Utf16LeChar(s[|s| - 1])
  }

  /** The widening of a text is at least as long as its UTF-16LE form, and as long exactly for ASCII text. */
  lemma {:induction false} WidenedLength(s: string)
    ensures |Widened(s)| >= |Utf16Le(s)| && |Utf16Le(s)| >= 2 * |s| && |Widened(s)| >= 2 * |s|
    ensures |Widened(s)| == |Utf16Le(s)| <==> IsAscii(s)
    ensures |Widened(s)| == 2 * |s| <==> IsAscii(s)
    ensures |Utf8.Encode(Interleave(s))| == |Widened(s)|
  {
    OctetsAreWidened(s);
    if s != [] {
      var p := s[..|s| - 1];
      WidenedLength(p);
      assert IsAscii(s) <==> IsAscii(p) && Utf8.Value(s[|s| - 1]) < 0x80 by {
        assert forall i :: 0 <= i < |p| ==> p[i] == s[i];
      }
    }
  }

  /** The widening of an ASCII text is its UTF-16LE form. */
  lemma {:induction false} AsciiWidenedIsUtf16Le(s: string)
    requires IsAscii(s)
    ensures Widened(s) == Utf16Le(s)
  {
    if s != [] {
      var p := s[..|s| - 1];
      assert IsAscii(p) by {
        assert forall i :: 0 <= i < |p| ==> p[i] == s[i];
      }
      AsciiWidenedIsUtf16Le(p);
      var c := s[|s| - 1];
      assert Utf8.EncodeChar(c) + [0] == Utf16LeChar(c);
    }
  }

  /** The octets that are Base 64 encoded are the UTF-16LE form of the stripped text exactly when that text is ASCII. */
  lemma Utf16LeExactlyForAscii(data: string)
    ensures CommandOctets(data) == Utf16Le(Strip(data)) <==> IsAscii(Strip(data))
  {
    var s := Strip(data);
    OctetsAreWidened(s);
    WidenedLength(s);
    if IsAscii(s) {
      AsciiWidenedIsUtf16Le(s);
    }
  }

  // ---------------------------------------------------------------------------
  // Concrete vectors

  /** "A" is the octets 41 00, whose Base 64 form is "QQA="; markers around it change nothing. */
  lemma VectorA()
    ensures CommandOctets("A") == [0x41, 0x00]
    ensures EncodedCommand("A") == "QQA="
    ensures EncodedCommand("\U{EF}\U{BB}A\U{BF}") == "QQA="
  {
    OctetsA();
    assert Base64.Encode([0x41, 0x00]) == Base64.EncodeTwo(0x41, 0x00);
    StripMarkedA();
  }

  /** The octets of "A": 41 00. */
  lemma OctetsA()
    ensures CommandOctets("A") == [0x41, 0x00]
  {
    assert Strip("A") == "A";
    OctetsAreWidened("A");
    assert Widened("A") == Widened([]) + Utf8.EncodeChar('A') + [0];
  }

  /** The markers around "A" are stripped. */
  lemma StripMarkedA()
    ensures Strip("\U{EF}\U{BB}A\U{BF}") == "A"
  {
    assert "\U{EF}\U{BB}A\U{BF}"[1..] == "\U{BB}A\U{BF}";
    assert "\U{BB}A\U{BF}"[1..] == "A\U{BF}";
    assert "A\U{BF}"[1..] == "\U{BF}";
    assert Strip("\U{BF}") == [];
  }

  /** "AB" is the octets 41 00 42 00, whose Base 64 form is "QQBCAA==". */
  lemma VectorAB()
    ensures CommandOctets("AB") == [0x41, 0x00, 0x42, 0x00]
    ensures EncodedCommand("AB") == "QQBCAA=="
  {
    OctetsAB();
    Base64AB();
  }

  /** The octets of "AB": 41 00 42 00. */
  lemma OctetsAB()
    ensures CommandOctets("AB") == [0x41, 0x00, 0x42, 0x00]
  {
    assert Strip("AB") == "AB" by {
      assert "AB"[1..] == "B";
    }
    OctetsAreWidened("AB");
    assert "AB"[..1] == "A";
    assert Widened("A") == Widened([]) + Utf8.EncodeChar('A') + [0];
    assert Widened("AB") == Widened("A") + Utf8.EncodeChar('B') + [0];
  }

  /** The Base 64 form of 41 00 42 00. */
  lemma Base64AB()
    ensures Base64.Encode([0x41, 0x00, 0x42, 0x00]) == "QQBCAA=="
  {
    var o: seq<Byte> := [0x41, 0x00, 0x42, 0x00];
    assert o[3..] == [0x00];
    assert Base64.Encode(o) == Base64.EncodeGroup(0x41, 0x00, 0x42) + Base64.EncodeOne(0x00);
    assert Base64.IndexToChar(16) == 'Q' && Base64.IndexToChar(1) == 'B' && Base64.IndexToChar(2) == 'C';
    assert Base64.IndexToChar(0) == 'A';
    assert Base64.EncodeGroup(0x41, 0x00, 0x42) == "QQBC";
    assert Base64.EncodeOne(0x00) == "AA==";
  }
}
