# PSEncoder in Dafny

A verified model of `powershell_encode` in `ps_encoder.py`. The function turns a
PowerShell script into the Base 64 text that `powershell.exe -EncodedCommand`
accepts. It works in four steps:

1. **Strip.** It removes every U+00EF, U+00BB and U+00BF. The UTF-8 byte-order
   mark is one character, U+FEFF, written as the three octets EF BB BF; read in
   a single-byte code page, those octets are the three characters removed here.
   The filter works on characters, not octets: a mark decoded as U+FEFF is kept,
   and a genuine "ï", "»" or "¿" in a script is deleted wherever it occurs.
2. **Interleave.** It follows each remaining character with U+0000.
3. **UTF-8.** It encodes the resulting text as UTF-8 (`str.encode()`).
4. **Base 64.** It encodes those octets as padded Base 64 (`base64.b64encode`)
   and returns the result as text.

The model keeps the function's known quirk. A character at or above U+0080
keeps its whole UTF-8 form, followed by one zero octet. So the octets are real
UTF-16LE (what PowerShell expects) only when the text is ASCII. The model proves
exactly that. It is not "fixed".

Files:

- `wrappers.dfy`: module `Wrappers`, with `Option` and the `Byte` type (0..255).
- `utf8.dfy`: module `Utf8`, UTF-8 as section 3 of RFC 3629 defines it. The
  decoder is strict (the syntax of section 4 of RFC 3629), and both round trips
  are proved.
- `base64.dfy`: module `Base64`, Base 64 as section 4 of RFC 4648 defines it,
  with the alphabet of Table 1 and `=` padding. A decoder that accepts only
  canonical text (section 3.5 of RFC 4648) is proved to be its inverse in both
  directions.
- `ps_encoder.dfy`: module `PsEncoder`, the four steps. `InsertNulls` is the
  source's accumulating loop, proved to compute `Interleave`.
  `PowershellEncode` is the whole function.
- `ps_encoder_properties.dfy`: module `PsEncoderProperties`, what the whole
  transformation guarantees. This covers markers, the shape of the output,
  decoding it back, the UTF-16LE comparison and concrete vectors.

The model follows Python 3, where the script is a `str` of code points and
`str.encode()` means UTF-8. (The source's `#!/usr/bin/env python` line does not
name a version. Under Python 2 the same text would strip octets from a byte
string, and `.encode()` would raise on any octet at or above 0x80.)

The script is a Dafny `string`: a sequence of `char`, where each `char` is a
Unicode scalar value. That is the sequence of code points that Python's `for
char in ...` visits, except that lone surrogates cannot occur. Python's
`str.encode()` raises an exception on lone surrogates, so the model's input type
excludes that failure path.

## Model

| member | source | states |
|---|---|---|
| `PsEncoder.Strip` | ps_encoder.py:45-47 | the stripped text contains none of U+00EF, U+00BB, U+00BF and is never longer than the input |
| `PsEncoder.StripAppend` | ps_encoder.py:45-47 | stripping works piece by piece, so the characters it keeps stay in their relative order |
| `PsEncoder.StripCounts` | ps_encoder.py:45-47 | every marker is removed; every other character keeps its exact number of occurrences |
| `PsEncoder.StripUnchanged` | ps_encoder.py:45-47 | stripping leaves a text unchanged if and only if the text has no marker |
| `PsEncoder.StripIdempotent` | ps_encoder.py:47 | stripping already stripped text is a no-op |
| `PsEncoder.StripEmpty` | ps_encoder.py:45-47 | stripping leaves nothing if and only if every character is a marker |
| `PsEncoder.Interleave` | ps_encoder.py:42-49 | the accumulated text is exactly twice as long as the stripped text |
| `PsEncoder.InterleaveAt` | ps_encoder.py:47-49 | position 2i holds the i-th stripped character and position 2i+1 holds U+0000 |
| `PsEncoder.Deinterleave` | ps_encoder.py:47-49 | keeping the characters at even positions recovers the stripped text |
| `PsEncoder.InsertNulls` | ps_encoder.py:42-49 | the loop that appends each character and U+0000 to `blank_command` ends with the interleaved text |
| `PsEncoder.CommandOctets` | ps_encoder.py:45-53 | the octets `powershell_command.encode()` yields number at least twice the characters left after stripping |
| `PsEncoder.EncodedCommand` | ps_encoder.py:40-54 | the text the function returns: its length is a multiple of four, namely 4 * ceil(B / 3) for B octets |
| `PsEncoder.PowershellEncode` | ps_encoder.py:40-54 | the function returns the Base 64 form of the UTF-8 form of the interleaved stripped text |
| `Utf8.EncodeChar` | ps_encoder.py:53 | one character becomes 1 to 4 octets: a lead octet announcing the length, then continuation octets 10xxxxxx; the length follows the value ranges of RFC 3629's table |
| `Utf8.Encode` | ps_encoder.py:53 | a text never has fewer octets than characters |
| `Utf8.EncodeAppend` | ps_encoder.py:53 | encoding a concatenation gives the concatenation of the encodings |
| `Utf8.EncodeAscii` | ps_encoder.py:53 | a text has one octet per character if and only if it is ASCII, and then each octet is the character's value |
| `Utf8.DecodeFirstEncodeChar` | ps_encoder.py:53 | decoding a character's octets, whatever follows them, gives back the character and its octet count |
| `Utf8.EncodeCharDecodeFirst` | ps_encoder.py:53 | every well-formed sequence the decoder reads is exactly the encoding of the character it yields |
| `Utf8.DecodeEncode` | ps_encoder.py:53 | the UTF-8 encoding of any text decodes back to that text |
| `Utf8.EncodeDecode` | ps_encoder.py:53 | every octet string the decoder accepts is the encoding of the text it returns |
| `Base64.IndexToChar` | ps_encoder.py:53 | every sextet is written as a character of the 64-character alphabet |
| `Base64.CharToIndex` | ps_encoder.py:53 | a character has a sextet value if and only if it belongs to the alphabet |
| `Base64.CharOfIndex` | ps_encoder.py:53 | reading back the alphabet character of any sextet gives that sextet |
| `Base64.IndexOfChar` | ps_encoder.py:53 | every alphabet character is the character of the sextet it reads as; with `CharOfIndex`, Table 1 is a bijection between sextets and alphabet characters |
| `Base64.Encode` | ps_encoder.py:53 | B octets become 4 * ceil(B / 3) characters |
| `Base64.EncodeShape` | ps_encoder.py:53-54 | every character is from the alphabet, except the last (3 - B mod 3) mod 3 characters, which are '='; there are at most two of them |
| `Base64.DecodeEncode` | ps_encoder.py:53 | decoding the Base 64 form of any octet string gives back those octets |
| `Base64.EncodeDecode` | ps_encoder.py:53 | every text the decoder accepts is exactly the Base 64 form of the octets it returns |
| `PsEncoderProperties.EncodedCommandOfStripped` | ps_encoder.py:45-54 | the output for a text equals the output for its stripped text |
| `PsEncoderProperties.MarkerContributesNothing` | ps_encoder.py:45-54 | inserting a marker anywhere in the input does not change the output |
| `PsEncoderProperties.EmptyCommand` | ps_encoder.py:42-54 | the output is empty if and only if the input is empty or holds only markers |
| `PsEncoderProperties.OutputShape` | ps_encoder.py:47-54 | the output has 4 * ceil(B / 3) characters, where B is the UTF-8 octet count of the interleaved text; all are alphabet characters except at most two final '=' |
| `PsEncoderProperties.OctetCount` | ps_encoder.py:45-53 | B is at least twice the stripped length, and exactly twice it if and only if the stripped text is ASCII |
| `PsEncoderProperties.DecodeEncodedCommand` | ps_encoder.py:45-54 | Base 64 decoding, UTF-8 decoding and keeping every other character turn the output back into the stripped input |
| `PsEncoderProperties.EncodeDecodedCommand` | ps_encoder.py:45-54 | a text that decodes that way to a marker-free script is exactly the output for that script |
| `PsEncoderProperties.SameCommand` | ps_encoder.py:45-54 | two inputs have the same output if and only if their stripped texts are equal |
| `PsEncoderProperties.AsciiOctets` | ps_encoder.py:49-53 | the UTF-8 form of an interleaved ASCII text is c0, 0, c1, 0, ...: 2n octets |
| `PsEncoderProperties.AsciiRoundTrip` | ps_encoder.py:49-54 | for ASCII stripped text, Base 64 decoding the output gives c0, 0, c1, 0, ..., and the octets at even positions are the stripped text |
| `PsEncoderProperties.OctetsAreWidened` | ps_encoder.py:49-53 | the encoded octets are, character by character, the full UTF-8 form followed by one zero octet |
| `PsEncoderProperties.WidenedLength` | ps_encoder.py:49-53 | those octets are never fewer than the UTF-16LE form's, and equally many if and only if the text is ASCII |
| `PsEncoderProperties.AsciiWidenedIsUtf16Le` | ps_encoder.py:49-53 | for ASCII text those octets are exactly the UTF-16LE form |
| `PsEncoderProperties.Utf16LeExactlyForAscii` | ps_encoder.py:49-53 | the octets that get Base 64 encoded are the UTF-16LE form of the stripped text if and only if that text is ASCII |
| `PsEncoderProperties.NonAsciiExample` | ps_encoder.py:49-54 | U+00E9 gives the octets C3 A9 00 (UTF-16LE would be E9 00), and the output "w6kA" |
| `PsEncoderProperties.VectorA` | ps_encoder.py:40-54 | "A" gives the octets 41 00 and the output "QQA="; so does U+00EF U+00BB "A" U+00BF |
| `PsEncoderProperties.VectorAB` | ps_encoder.py:40-54 | "AB" gives the octets 41 00 42 00 and the output "QQBCAA==" |

`Utf8.Decode`, `Base64.Decode` and `PsEncoderProperties.DecodeCommand` are not
in the source. They are the inverses that the round-trip lemmas are stated
against. `PsEncoder.EvenPositions` (every other element, from the first) undoes
`Interleave`, and `PsEncoderProperties.IsInterleaved` says that a text has a
U+0000 at every odd position; `DecodeCommand` uses both.
`PsEncoderProperties.Widened` is what the encoder produces per character (its
UTF-8 form, then one zero octet), written out independently of the pipeline. `PsEncoderProperties.Utf16Le` is the reference UTF-16LE encoding. It
uses surrogate pairs above U+FFFF, and the quirk lemmas compare the encoder's
octets with it.

## Left out

- `usage()` and `main()` (ps_encoder.py:57-89) are not modelled. They hold
  option parsing, the file-existence check, reading the file, printing and exit
  codes, which is process and I/O glue around the encoder.
- The regular-expression engine (ps_encoder.py:45) is not modelled. The
  substitution of `""` for the three-way alternation is modelled as a filter
  over characters.
- Lone surrogates are not modelled. Dafny's `char` admits no value in
  D800-DFFF, so the exception `str.encode()` raises for them cannot arise.
- The `bytes`-to-`str` conversion of line 54 is modelled as the identity on the
  character sequence. Base 64 output is ASCII, so decoding it as UTF-8 always
  succeeds and changes nothing.
- The cost of Python's repeated `+=` string concatenation is not modelled. Only
  the resulting sequence matters.
- Step 2 appends characters, not octets, to a `str`. The whole text is UTF-8
  encoded afterwards, so a character at or above U+0080 contributes its full
  multi-octet form before the zero (see `OctetsAreWidened`).
