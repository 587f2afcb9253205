/** Percent coding and captures, each stated without the functions that compute them. */
module RouteRules {
  import opened Routes
  import opened Texts
  import opened Wrappers

  // ---- Spelling ------------------------------------------------------------------------------------------

  /** A hexadecimal digit of this value, in either case. */
  predicate IsHexOf(c: char, value: int) {
    0 <= value < 16 && (c == "0123456789ABCDEF"[value] || c == "0123456789abcdef"[value])
  }

  lemma HexValuesExactlyWhen(c: char, value: int)
    ensures HexValue(c) == Some(value) <==> IsHexOf(c, value)
    ensures 0 <= value < 16 ==> HexDigit(value) == "0123456789ABCDEF"[value]
  {
  }

  /** From this place on, an octet is spelled as a percent sign and two hexadecimal digits. */
  predicate SpellsOctet(text: string, at: nat, octet: Byte) {
    at + 3 <= |text| && text[at] == '%' && IsHexOf(text[at + 1], octet / 16) && IsHexOf(text[at + 2], octet % 16)
  }

  /** The piece is the character itself, but no percent sign, or the escapes of its octets in UTF-8. */
  predicate SpellsChar(piece: string, c: char) {
    || (piece == [c] && c != '%')
    || (|piece| == 3 * |Utf8(c)| && forall i :: 0 <= i < |Utf8(c)| ==> SpellsOctet(piece, 3 * i, Utf8(c)[i]))
  }

  /** A text is cut into pieces that spell the characters one by one. */
  ghost predicate Spells(text: string, value: string)
    decreases |value|
  {
    if value == "" then text == ""
    else exists n :: 0 < n <= |text| && SpellsChar(text[..n], value[0]) && Spells(text[n..], value[1..])
  }

  lemma OctetReadsExactlyWhen(text: string, octet: Byte)
    ensures ReadOctet(text) == Some(octet) <==> SpellsOctet(text, 0, octet)
  {
    if |text| >= 3 {
      HexValuesExactlyWhen(text[1], octet / 16);
      HexValuesExactlyWhen(text[2], octet % 16);
      if HexValue(text[1]).Some? && HexValue(text[2]).Some? {
        var high, low := HexValue(text[1]).value, HexValue(text[2]).value;
        assert (16 * high + low) / 16 == high && (16 * high + low) % 16 == low;
      }
    }
  }

  lemma {:induction false} OctetsReadExactlyWhen(text: string, octets: Bytes)
    ensures ReadOctets(text, |octets|) == Some(octets) <==>
            forall i :: 0 <= i < |octets| ==> SpellsOctet(text, 3 * i, octets[i])
  {
    if octets != [] {
      OctetReadsExactlyWhen(text, octets[0]);
      if SpellsOctet(text, 0, octets[0]) {
        OctetsReadExactlyWhen(text[3..], octets[1..]);
        SpelledBehind(text, octets);
        assert octets == [octets[0]] + octets[1..];
      } else {
        assert !SpellsOctet(text, 3 * 0, octets[0]);
      }
    }
  }

  lemma SpelledBehind(text: string, octets: Bytes)
    requires octets != [] && SpellsOctet(text, 0, octets[0])
    ensures (forall i :: 0 <= i < |octets| ==> SpellsOctet(text, 3 * i, octets[i])) <==>
            (forall i :: 0 <= i < |octets| - 1 ==> SpellsOctet(text[3..], 3 * i, octets[1..][i]))
  {
    forall i | 0 <= i < |octets| - 1
      ensures SpellsOctet(text[3..], 3 * i, octets[1..][i]) <==> SpellsOctet(text, 3 * (i + 1), octets[i + 1])
    {
    }
    if forall i :: 0 <= i < |octets| - 1 ==> SpellsOctet(text[3..], 3 * i, octets[1..][i]) {
      forall i | 0 <= i < |octets|
        ensures SpellsOctet(text, 3 * i, octets[i])
      {
        if i > 0 {
          assert SpellsOctet(text[3..], 3 * (i - 1), octets[1..][i - 1]);
        }
      }
    }
  }

  /** What the decoder reads off the front is a piece that spells the character. */
  lemma FrontIsSpelled(text: string, c: char, n: nat)
    requires 0 < n <= |text| && SpellsChar(text[..n], c)
    ensures Decode(text) == Prepend(c, Decode(text[n..]))
  {
    if text[..n] == [c] && c != '%' {
      assert text[0] == c;
    } else {
      var octets := Utf8(c);
      forall i | 0 <= i < |octets|
        ensures SpellsOctet(text, 3 * i, octets[i])
      {
        assert SpellsOctet(text[..n], 3 * i, octets[i]);
      }
      OctetsReadExactlyWhen(text, octets);
      OctetReadsExactlyWhen(text, octets[0]);
      assert SpellsOctet(text, 3 * 0, octets[0]);
      Utf8ReadsBack(c);
    }
  }

  lemma EscapesWereSpelled(text: string, octets: Bytes)
    requires octets != [] && ReadOctets(text, |octets|) == Some(octets) && Utf8Value(octets).Some?
    ensures 3 * |octets| <= |text| && SpellsChar(text[..3 * |octets|], Utf8Value(octets).value)
  {
    Utf8WritesBack(octets);
    OctetsReadExactlyWhen(text, octets);
    SpelledInFront(text, octets);
  }

  lemma SpelledInFront(text: string, octets: Bytes)
    requires 3 * |octets| <= |text| && forall i :: 0 <= i < |octets| ==> SpellsOctet(text, 3 * i, octets[i])
    ensures forall i :: 0 <= i < |octets| ==> SpellsOctet(text[..3 * |octets|], 3 * i, octets[i])
  {
    forall i | 0 <= i < |octets|
      ensures SpellsOctet(text[..3 * |octets|], 3 * i, octets[i])
    {
      assert SpellsOctet(text, 3 * i, octets[i]);
    }
  }

  /** How much of a text the decoder reads off its front. */
  lemma FrontOf(text: string) returns (n: nat)
    requires text != "" && Decode(text).Some?
    ensures 0 < n <= |text| && Decode(text).value != ""
    ensures SpellsChar(text[..n], Decode(text).value[0]) && Decode(text[n..]) == Some(Decode(text).value[1..])
  {
    if text[0] != '%' {
      n := 1;
      assert text[..1] == [text[0]];
    } else {
      var count := SequenceLength(ReadOctet(text).value);
      EscapesWereSpelled(text, ReadOctets(text, count).value);
      n := 3 * count;
    }
  }

  lemma {:induction false} SpelledTextDecodes(text: string, value: string)
    requires Spells(text, value)
    ensures Decode(text) == Some(value)
    decreases |value|
  {
    if value != "" {
      var n :| 0 < n <= |text| && SpellsChar(text[..n], value[0]) && Spells(text[n..], value[1..]);
      FrontIsSpelled(text, value[0], n);
      SpelledTextDecodes(text[n..], value[1..]);
      assert value == [value[0]] + value[1..];
    }
  }

  lemma {:induction false} DecodedTextIsSpelled(text: string)
    requires Decode(text).Some?
    ensures Spells(text, Decode(text).value)
    decreases |text|
  {
    if text != "" {
      var n := FrontOf(text);
      DecodedTextIsSpelled(text[n..]);
    }
  }

  /** Every text decodes to what it spells, in whichever way, and texts that spell nothing do not decode. */
  lemma DecodesExactlyWhenSpelled(text: string, value: string)
    ensures Decode(text) == Some(value) <==> Spells(text, value)
  {
    if Spells(text, value) {
      SpelledTextDecodes(text, value);
    }
    if Decode(text).Some? {
      DecodedTextIsSpelled(text);
    }
  }

  lemma SegmentDecodesExactlyWhen(segment: string, value: string)
    ensures DecodeSegment(segment) == Some(value) <==> Spells(segment, value) && value != "" && '/' !in value
  {
    DecodesExactlyWhenSpelled(segment, value);
  }

  // ---- Encoding ------------------------------------------------------------------------------------------

  /** Letters, digits and nine marks stand for themselves; every other character becomes capital escapes. */
  predicate IsEncodingOf(piece: string, c: char) {
    if 'a' <= c <= 'z' || 'A' <= c <= 'Z' || '0' <= c <= '9' || c in "-_.!~*'()" then piece == [c]
    else
      && |piece| == 3 * |Utf8(c)|
      && forall i :: 0 <= i < |Utf8(c)| ==> IsEscapeAt(piece, 3 * i, Utf8(c)[i])
  }

  /** From this place on, the octet is written as a percent sign and two capital digits. */
  predicate IsEscapeAt(text: string, at: nat, octet: Byte) {
    && at + 3 <= |text| && text[at] == '%'
    && text[at + 1] == "0123456789ABCDEF"[octet / 16] && text[at + 2] == "0123456789ABCDEF"[octet % 16]
  }

  lemma {:induction false} OctetIsEscaped(bytes: Bytes, i: nat)
    requires i < |bytes|
    ensures IsEscapeAt(Escape(bytes), 3 * i, bytes[i])
  {
    if i == 0 {
      HexValuesExactlyWhen('0', bytes[0] / 16);
      HexValuesExactlyWhen('0', bytes[0] % 16);
    } else {
      OctetIsEscaped(bytes[1..], i - 1);
      EscapeBehind(['%', HexDigit(bytes[0] / 16), HexDigit(bytes[0] % 16)], Escape(bytes[1..]), 3 * (i - 1), bytes[i]);
    }
  }

  lemma EscapeBehind(first: string, rest: string, at: nat, octet: Byte)
    requires |first| == 3 && IsEscapeAt(rest, at, octet)
    ensures IsEscapeAt(first + rest, at + 3, octet)
  {
  }

  /** A character is encoded in its one way, and a text character by character. */
  lemma CharacterIsEncoded(c: char)
    ensures IsEncodingOf(Encode([c]), c)
  {
    forall i | 0 <= i < |Utf8(c)| ensures IsEscapeAt(Escape(Utf8(c)), 3 * i, Utf8(c)[i]) {
      OctetIsEscaped(Utf8(c), i);
    }
    assert [c][1..] == "" && EncodeChar(c) + Encode("") == EncodeChar(c);
  }

  lemma {:induction false} EncodingGoesCharacterByCharacter(first: string, second: string)
    ensures Encode(first + second) == Encode(first) + Encode(second)
  {
    if first == "" {
      assert first + second == second;
    } else {
      assert (first + second)[1..] == first[1..] + second;
      EncodingGoesCharacterByCharacter(first[1..], second);
    }
  }

  // ---- Captures --------------------------------------------------------------------------------------------

  /** No later parameter of the pattern has the same name. */
  predicate IsLastOfItsName(expected: seq<string>, i: nat) {
    && i < |expected| && IsParameter(expected[i])
    && forall j :: i < j < |expected| && IsParameter(expected[j]) ==>
         ParameterName(expected[j]) != ParameterName(expected[i])
  }

  /** A match captures the names of the pattern and nothing else. */
  lemma {:induction false} CapturedNames(expected: seq<string>, actual: seq<Option<string>>)
    requires |expected| == |actual| && Capture(expected, actual).Some?
    ensures Capture(expected, actual).value.Keys == ParameterNames(expected)
  {
    if expected != [] {
      var n := |expected| - 1;
      CapturedNames(expected[..n], actual[..n]);
      assert expected == expected[..n] + [expected[n]];
      NamesWithOneMore(expected[..n], expected[n]);
    }
  }

  /** Each name bears the value of the last place that has it. */
  lemma {:induction false} CapturedValue(expected: seq<string>, actual: seq<Option<string>>, i: nat)
    requires |expected| == |actual| && Capture(expected, actual).Some? && IsLastOfItsName(expected, i)
    ensures var params, name := Capture(expected, actual).value, ParameterName(expected[i]);
            name in params && actual[i] == Some(params[name])
  {
    var n := |expected| - 1;
    if i < n {
      assert IsLastOfItsName(expected[..n], i);
      CapturedValue(expected[..n], actual[..n], i);
    }
  }

  // ---- Patterns that are not proper ------------------------------------------------------------------------

  /** Empty braces name nothing and stay as they are. */
  lemma EmptyBracesStay(rest: string, params: Params)
    ensures BuildPath("{}" + rest, params) == After("{", After("}", BuildPath(rest, params)))
  {
    var pattern := "{}" + rest;
    assert pattern[1..] == "}" + rest && ("}" + rest)[1..] == rest;
    assert pattern[0] == '{' && Until(pattern[1..], '}') == 0;
  }

  /** A brace that is never closed opens nothing: the rest of the pattern stays as it is. */
  lemma {:induction false} UnclosedBracesStay(pattern: string, params: Params)
    requires '}' !in pattern
    ensures BuildPath(pattern, params) == Ok(pattern)
  {
    if pattern != "" {
      assert '}' !in pattern[1..];
      UntilEnds(pattern[1..], "", '}');
      assert pattern[1..] + "" == pattern[1..];
      UnclosedBracesStay(pattern[1..], params);
      assert pattern == [pattern[0]] + pattern[1..];
    }
  }
}
