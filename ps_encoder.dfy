/**
 * powershell_encode: turns a PowerShell script into the Base 64 text that
 * powershell.exe accepts after -EncodedCommand. The script's editor marker
 * characters U+00EF, U+00BB and U+00BF are removed, each remaining character
 * is followed by U+0000, the result is encoded as UTF-8 and the octets as
 * Base 64.
 *
 * A character at or above U+0080 keeps its whole UTF-8 form followed by a
 * single zero octet, so the interleaved octets are UTF-16LE only for ASCII
 * text; the model keeps that behaviour and proves where it departs.
 */
module PsEncoder {
  import opened Wrappers
  import Utf8
  import Base64

  // ---------------------------------------------------------------------------
  // Step 1: removing the marker characters (the regular expression (\xef|\xbb|\xbf))

  /** One of the three characters that the encoder removes. */
  predicate IsMarker(c: char) { c == '\U{EF}' || c == '\U{BB}' || c == '\U{BF}' }

  /** True when no character of `s` is a marker. */
  predicate MarkerFree(s: string) { forall i :: 0 <= i < |s| ==> !IsMarker(s[i]) }

  /** `s` with every marker removed: the substitution of "" for each match of the pattern. */
  function Strip(s: string): (r: string)
    ensures MarkerFree(r)
    ensures |r| <= |s|
  {
    if s == [] then []
    else (if IsMarker(s[0]) then [] else [s[0]]) + Strip(s[1..])
  }

  /** Stripping works piece by piece: it keeps the order of what it leaves. */
  lemma {:induction false} StripAppend(s: string, t: string)
    ensures Strip(s + t) == Strip(s) + Strip(t)
  {
    if s == [] {
      assert s + t == t;
    } else {
      var kept := if IsMarker(s[0]) then [] else [s[0]];
      assert (s + t)[0] == s[0] && (s + t)[1..] == s[1..] + t;
      StripAppend(s[1..], t);
      calc {
        Strip(s + t);
        kept + Strip(s[1..] + t);
        kept + (Strip(s[1..]) + Strip(t));
        (kept + Strip(s[1..])) + Strip(t);
      }
    }
  }

  /** Stripping changes a text exactly when the text holds a marker. */
  lemma {:induction false} StripUnchanged(s: string)
    ensures Strip(s) == s <==> MarkerFree(s)
  {
    if s != [] && MarkerFree(s) {
      assert MarkerFree(s[1..]) by {
        forall i | 0 <= i < |s[1..]| ensures !IsMarker(s[1..][i]) {
          assert s[1..][i] == s[i + 1];
        }
      }
      StripUnchanged(s[1..]);
      assert [s[0]] + s[1..] == s;
    }
  }

  /** Stripping an already stripped text changes nothing. */
  lemma StripIdempotent(s: string)
    ensures Strip(Strip(s)) == Strip(s)
  {
    StripUnchanged(Strip(s));
  }

  /** Stripping drops every marker and keeps every other character as often as it occurs. */
  lemma {:induction false} StripCounts(s: string, c: char)
    ensures multiset(Strip(s))[c] == if IsMarker(c) then 0 else multiset(s)[c]
  {
    if s != [] {
      StripCounts(s[1..], c);
      assert s == [s[0]] + s[1..];
      assert multiset(s) == multiset([s[0]]) + multiset(s[1..]);
    }
  }

  /** Stripping leaves nothing exactly when the text consists of markers only. */
  lemma {:induction false} StripEmpty(s: string)
    ensures Strip(s) == [] <==> forall i :: 0 <= i < |s| ==> IsMarker(s[i])
  {
    if s != [] {
      StripEmpty(s[1..]);
      assert forall i :: 1 <= i < |s| ==> s[i] == s[1..][i - 1];
    }
  }

  // ---------------------------------------------------------------------------
  // Step 2: following each character by U+0000

  /** Each character of `s` followed by U+0000, in order: the value of blank_command after the loop. */
  function Interleave(s: string): (r: string)
    ensures |r| == 2 * |s|
  {
    if s == [] then [] else Interleave(s[..|s| - 1]) + [s[|s| - 1], '\0']
  }

  /** Position 2i of the interleaved text holds the i-th character and position 2i+1 holds U+0000. */
  lemma {:induction false} InterleaveAt(s: string)
    ensures forall i :: 0 <= i < |s| ==> Interleave(s)[2 * i] == s[i] && Interleave(s)[2 * i + 1] == '\0'
  {
    if s != [] {
      var p := s[..|s| - 1];
      InterleaveAt(p);
      forall i | 0 <= i < |s|
        ensures Interleave(s)[2 * i] == s[i] && Interleave(s)[2 * i + 1] == '\0'
      {
        if i < |p| {
          assert Interleave(s)[2 * i] == Interleave(p)[2 * i] && p[i] == s[i];
          assert Interleave(s)[2 * i + 1] == Interleave(p)[2 * i + 1];
        }
      }
    }
  }

  /** The elements at the even positions of `t`: every other element, starting with the first. */
  function EvenPositions<T>(t: seq<T>): (r: seq<T>)
    ensures |r| == (|t| + 1) / 2
    ensures forall i :: 0 <= i < |r| ==> r[i] == t[2 * i]
  {
    if t == [] then [] else if |t| == 1 then [t[0]] else [t[0]] + EvenPositions(t[2..])
  }

  /** Dropping every character at an odd position recovers the text that was interleaved. */
  lemma Deinterleave(s: string)
    ensures EvenPositions(Interleave(s)) == s
  {
    InterleaveAt(s);
  }

  /** The loop of powershell_encode: each character, then U+0000, appended to an accumulator. */
  method InsertNulls(text: string) returns (blank: string)
    ensures blank == Interleave(text)
  {
    blank := "";
    var i := 0;
    while i < |text|
      invariant 0 <= i <= |text|
      invariant blank == Interleave(text[..i])
    {
      assert text[..i + 1][..i] == text[..i];
      blank := blank + [text[i], '\0'];
      i := i + 1;
    }
    assert text[..|text|] == text;
  }

  // ---------------------------------------------------------------------------
  // Steps 3 and 4, and the whole transformation

  /** The octets that Base 64 encoding is applied to: the UTF-8 form of the interleaved text. */
  function CommandOctets(data: string): (r: seq<Byte>)
    ensures |r| >= 2 * |Strip(data)|
  {
    Utf8.Encode(Interleave(Strip(data)))
  }

  /** The text powershell_encode returns for `data`. */
  function EncodedCommand(data: string): (r: string)
    ensures |r| % 4 == 0
    ensures |r| == 4 * ((|CommandOctets(data)| + 2) / 3)
  {
    Base64.Encode(CommandOctets(data))
  }

  /** powershell_encode itself: strip, interleave with the loop, encode as UTF-8, then as Base 64. */
  method PowershellEncode(data: string) returns (command: string)
    ensures command == EncodedCommand(data)
  {
    var stripped := Strip(data);
    var blankCommand := InsertNulls(stripped);
    command := Base64.Encode(Utf8.Encode(blankCommand));
  }
}
