/** Console routes: building a path from a pattern, and matching a path against patterns, inverse to each other. */
module Routes {
  import opened Texts
  import opened Wrappers

  type Params = map<string, string>

  datatype Route = Route(id: string, path: string)

  datatype RouteMatch = RouteMatch(route: Route, params: Params)

  datatype BuildError = MissingParameter(name: string)

  // ---- UTF-8 -----------------------------------------------------------------------------------------

  function Utf8(c: char): (bytes: Bytes)
    ensures 1 <= |bytes| <= 4 && SequenceLength(bytes[0]) == |bytes|
  {
    var n := c as int;
    if n < 0x80 then [n]
    else if n < 0x800 then [0xC0 + n / 0x40, 0x80 + n % 0x40]
    else if n < 0x10000 then [0xE0 + n / 0x1000, 0x80 + n / 0x40 % 0x40, 0x80 + n % 0x40]
    else [0xF0 + n / 0x40000, 0x80 + n / 0x1000 % 0x40, 0x80 + n / 0x40 % 0x40, 0x80 + n % 0x40]
  }

  /** How many octets a leading octet announces; none for an octet that cannot lead. */
  function SequenceLength(lead: Byte): nat {
    if lead < 0x80 then 1
    else if lead < 0xC0 then 0
    else if lead < 0xE0 then 2
    else if lead < 0xF0 then 3
    else if lead < 0xF8 then 4
    else 0
  }

  predicate IsContinuation(octet: Byte) {
    0x80 <= octet < 0xC0
  }

  /** The bits an octet carries besides its marker. */
  function Payload(octet: Byte, marker: int): int {
    octet - marker
  }

  /** The scalar value these octets encode in the shortest form, if they do. */
  function Utf8Value(bytes: Bytes): Option<char> {
    if bytes == [] || |bytes| != SequenceLength(bytes[0])
       || exists i :: 1 <= i < |bytes| && !IsContinuation(bytes[i])
    then
      None
    else if |bytes| == 1 then
      Some(bytes[0] as char)
    else if |bytes| == 2 then
      Scalar(Payload(bytes[0], 0xC0) * 0x40 + Payload(bytes[1], 0x80), 0x80)
    else if |bytes| == 3 then
      Scalar(Payload(bytes[0], 0xE0) * 0x1000 + Payload(bytes[1], 0x80) * 0x40 + Payload(bytes[2], 0x80), 0x800)
    else
      Scalar(Payload(bytes[0], 0xF0) * 0x40000 + Payload(bytes[1], 0x80) * 0x1000
             + Payload(bytes[2], 0x80) * 0x40 + Payload(bytes[3], 0x80), 0x10000)
  }

  function Scalar(value: int, least: nat): Option<char> {
    if least <= value < 0xD800 || (least <= value && 0xE000 <= value < 0x110000) then Some(value as char) else None
  }

  lemma Utf8ReadsBack(c: char)
    ensures Utf8Value(Utf8(c)) == Some(c)
  {
    var n := c as int;
    assert n == n / 0x40 * 0x40 + n % 0x40;
    assert n / 0x40 == n / 0x1000 * 0x40 + n / 0x40 % 0x40;
    assert n / 0x1000 == n / 0x40000 * 0x40 + n / 0x1000 % 0x40;
  }

  lemma DigitsAreUnique(high: int, low: int)
    requires 0 <= low < 0x40
    ensures (high * 0x40 + low) / 0x40 == high && (high * 0x40 + low) % 0x40 == low
  {
  }

  lemma TwoOctetsWriteBack(bytes: Bytes)
    requires Utf8Value(bytes).Some? && |bytes| == 2
    ensures Utf8(Utf8Value(bytes).value) == bytes
  {
    assert IsContinuation(bytes[1]);
    DigitsAreUnique(Payload(bytes[0], 0xC0), Payload(bytes[1], 0x80));
  }

  lemma ThreeOctetsWriteBack(bytes: Bytes)
    requires Utf8Value(bytes).Some? && |bytes| == 3
    ensures Utf8(Utf8Value(bytes).value) == bytes
  {
    assert IsContinuation(bytes[1]) && IsContinuation(bytes[2]);
    var high := Payload(bytes[0], 0xE0) * 0x40 + Payload(bytes[1], 0x80);
    DigitsAreUnique(Payload(bytes[0], 0xE0), Payload(bytes[1], 0x80));
    DigitsAreUnique(high, Payload(bytes[2], 0x80));
  }

  lemma FourOctetsWriteBack(bytes: Bytes)
    requires Utf8Value(bytes).Some? && |bytes| == 4
    ensures Utf8(Utf8Value(bytes).value) == bytes
  {
    assert IsContinuation(bytes[1]) && IsContinuation(bytes[2]) && IsContinuation(bytes[3]);
    var top := Payload(bytes[0], 0xF0) * 0x40 + Payload(bytes[1], 0x80);
    var high := top * 0x40 + Payload(bytes[2], 0x80);
    DigitsAreUnique(Payload(bytes[0], 0xF0), Payload(bytes[1], 0x80));
    DigitsAreUnique(top, Payload(bytes[2], 0x80));
    DigitsAreUnique(high, Payload(bytes[3], 0x80));
  }

  /** Only the shortest form is accepted, so no two octet sequences denote the same character. */
  lemma Utf8WritesBack(bytes: Bytes)
    requires Utf8Value(bytes).Some?
    ensures Utf8(Utf8Value(bytes).value) == bytes
  {
    if |bytes| == 2 {
      TwoOctetsWriteBack(bytes);
    } else if |bytes| == 3 {
      ThreeOctetsWriteBack(bytes);
    } else if |bytes| == 4 {
      FourOctetsWriteBack(bytes);
    }
  }

  // ---- Percent coding ----------------------------------------------------------------------------------

  predicate IsAlphanumeric(c: char) {
    'a' <= c <= 'z' || 'A' <= c <= 'Z' || '0' <= c <= '9'
  }

  predicate IsUnescaped(c: char) {
    IsAlphanumeric(c) || c in "-_.!~*'()"
  }

  function HexDigit(value: int): (c: char)
    requires 0 <= value < 16
    ensures IsAlphanumeric(c)
  {
    if value < 10 then ('0' as int + value) as char else ('A' as int + value - 10) as char
  }

  function HexValue(c: char): (value: Option<int>)
    ensures value.Some? ==> 0 <= value.value < 16
  {
    if '0' <= c <= '9' then Some(c as int - '0' as int)
    else if 'A' <= c <= 'F' then Some(c as int - 'A' as int + 10)
    else if 'a' <= c <= 'f' then Some(c as int - 'a' as int + 10)
    else None
  }

  function Escape(bytes: Bytes): (text: string)
    ensures |text| == 3 * |bytes|
    ensures forall i :: 0 <= i < |text| ==> IsAlphanumeric(text[i]) || text[i] == '%'
  {
    if bytes == [] then [] else ['%', HexDigit(bytes[0] / 16), HexDigit(bytes[0] % 16)] + Escape(bytes[1..])
  }

  function EncodeChar(c: char): (text: string)
    ensures text != [] && forall i :: 0 <= i < |text| ==> IsUnescaped(text[i]) || text[i] == '%'
  {
    if IsUnescaped(c) then [c] else Escape(Utf8(c))
  }

  function Encode(text: string): (encoded: string)
    ensures forall i :: 0 <= i < |encoded| ==> IsUnescaped(encoded[i]) || encoded[i] == '%'
    ensures encoded == [] <==> text == []
  {
    if text == [] then [] else EncodeChar(text[0]) + Encode(text[1..])
  }

  function ReadOctet(text: string): Option<Byte> {
    if |text| >= 3 && text[0] == '%' && HexValue(text[1]).Some? && HexValue(text[2]).Some? then
      Some(16 * HexValue(text[1]).value + HexValue(text[2]).value)
    else
      None
  }

  function ReadOctets(text: string, count: nat): (octets: Option<Bytes>)
    ensures octets.Some? ==> |octets.value| == count && |text| >= 3 * count
    decreases count
  {
    if count == 0 then Some([])
    else if ReadOctet(text).None? then None
    else
      match ReadOctets(text[3..], count - 1)
      case None => None
      case Some(rest) => Some([ReadOctet(text).value] + rest)
  }

  /** Escapes are read as UTF-8, everything else stands for itself, and a malformed escape spoils the whole text. */
  function Decode(text: string): Option<string>
    decreases |text|
  {
    if text == [] then Some([])
    else if text[0] != '%' then Prepend(text[0], Decode(text[1..]))
    else if ReadOctet(text).None? then None
    else
      var count := SequenceLength(ReadOctet(text).value);
      if count == 0 || ReadOctets(text, count).None? || Utf8Value(ReadOctets(text, count).value).None? then None
      else Prepend(Utf8Value(ReadOctets(text, count).value).value, Decode(text[3 * count..]))
  }

  function Prepend(c: char, text: Option<string>): Option<string> {
    match text case None => None case Some(rest) => Some([c] + rest)
  }

  lemma {:induction false} EscapesReadBack(bytes: Bytes, rest: string)
    ensures ReadOctets(Escape(bytes) + rest, |bytes|) == Some(bytes)
    ensures bytes != [] ==> ReadOctet(Escape(bytes) + rest) == Some(bytes[0])
    ensures (Escape(bytes) + rest)[3 * |bytes|..] == rest
  {
    if bytes != [] {
      EscapesReadBack(bytes[1..], rest);
      assert bytes == [bytes[0]] + bytes[1..];
      assert ReadOctet(Escape(bytes) + rest) == Some(bytes[0]);
      assert (Escape(bytes) + rest)[3..] == Escape(bytes[1..]) + rest;
    }
  }

  lemma EncodedCharDecodes(c: char, rest: string)
    ensures Decode(EncodeChar(c) + rest) == Prepend(c, Decode(rest))
  {
    if IsUnescaped(c) {
      assert ([c] + rest)[1..] == rest;
    } else {
      EscapesReadBack(Utf8(c), rest);
      Utf8ReadsBack(c);
    }
  }

  lemma {:induction false} EncodedTextDecodes(text: string)
    ensures Decode(Encode(text)) == Some(text)
  {
    if text != [] {
      EncodedCharDecodes(text[0], Encode(text[1..]));
      EncodedTextDecodes(text[1..]);
      assert text == [text[0]] + text[1..];
    }
  }

  lemma {:induction false} PlainTextDecodesToItself(text: string)
    requires '%' !in text
    ensures Decode(text) == Some(text)
  {
    if text != [] {
      PlainTextDecodesToItself(text[1..]);
      assert text == [text[0]] + text[1..];
    }
  }

  function DecodeSegment(segment: string): Option<string> {
    match Decode(segment)
    case None => None
    case Some(decoded) => if decoded != "" && '/' !in decoded then Some(decoded) else None
  }

  // ---- Segments --------------------------------------------------------------------------------------

  function WithoutTrailingSlashes(text: string): (stripped: string)
    ensures stripped <= text && (stripped == "" || stripped[|stripped| - 1] != '/')
    ensures forall i :: |stripped| <= i < |text| ==> text[i] == '/'
  {
    if text == "" || text[|text| - 1] != '/' then text else WithoutTrailingSlashes(text[..|text| - 1])
  }

  /** A text without its first character, as slicing from one gives it. */
  function Rest(text: string): string {
    if text == "" then "" else text[1..]
  }

  function ExpectedSegments(pattern: string): seq<string> {
    if pattern == "/" then [] else Split(Rest(pattern), '/')
  }

  function ActualSegments(pathname: string): seq<string> {
    if pathname == "/" then [] else Split(Rest(WithoutTrailingSlashes(pathname)), '/')
  }

  // ---- Matching --------------------------------------------------------------------------------------

  predicate IsParameter(segment: string) {
    segment != "" && segment[0] == '{' && segment[|segment| - 1] == '}'
  }

  function ParameterName(segment: string): string
    requires IsParameter(segment)
  {
    if |segment| < 2 then "" else segment[1..|segment| - 1]
  }

  /** What capturing one more segment does to what the earlier ones captured. */
  function CaptureNext(params: Params, expected: string, actual: Option<string>): Option<Params> {
    if actual.None? then None
    else if IsParameter(expected) then Some(params[ParameterName(expected) := actual.value])
    else if expected == actual.value then Some(params)
    else None
  }

  /** What the segments of a pattern capture from decoded segments; an undecodable one matches nothing. */
  function Capture(expected: seq<string>, actual: seq<Option<string>>): Option<Params>
    requires |expected| == |actual|
  {
    if expected == [] then Some(map[])
    else
      var last := |expected| - 1;
      match Capture(expected[..last], actual[..last])
      case None => None
      case Some(params) => CaptureNext(params, expected[last], actual[last])
  }

  lemma {:induction false} NothingCapturedBeyond(expected: seq<string>, actual: seq<Option<string>>, k: nat)
    requires |expected| == |actual| && k <= |expected|
    requires Capture(expected[..k], actual[..k]).None?
    ensures Capture(expected, actual).None?
    decreases |expected|
  {
    if k == |expected| {
      assert expected[..k] == expected && actual[..k] == actual;
    } else {
      var last := |expected| - 1;
      assert expected[..last][..k] == expected[..k] && actual[..last][..k] == actual[..k];
      NothingCapturedBeyond(expected[..last], actual[..last], k);
    }
  }

  lemma CaptureStepByStep(expected: seq<string>, actual: seq<Option<string>>, i: nat)
    requires |expected| == |actual| && i < |expected| && Capture(expected[..i], actual[..i]).Some?
    ensures Capture(expected[..i + 1], actual[..i + 1])
         == CaptureNext(Capture(expected[..i], actual[..i]).value, expected[i], actual[i])
  {
    assert expected[..i + 1][..i] == expected[..i] && actual[..i + 1][..i] == actual[..i];
  }

  function DecodedSegments(segments: seq<string>): (decoded: seq<Option<string>>) {
    seq(|segments|, i requires 0 <= i < |segments| => DecodeSegment(segments[i]))
  }

  function Matched(pattern: string, pathname: string): Option<Params> {
    var expected, actual := ExpectedSegments(pattern), ActualSegments(pathname);
    if |expected| != |actual| then None else Capture(expected, DecodedSegments(actual))
  }

  method MatchPattern(pattern: string, pathname: string) returns (result: Option<Params>)
    ensures result == Matched(pattern, pathname)
  {
    var expected, actual := ExpectedSegments(pattern), ActualSegments(pathname);
    if |expected| != |actual| {
      return None;
    }
    ghost var decoded := DecodedSegments(actual);
    var params: Params := map[];
    for index := 0 to |expected|
      invariant Capture(expected[..index], decoded[..index]) == Some(params)
    {
      CaptureStepByStep(expected, decoded, index);
      var segment := DecodeSegment(actual[index]);
      if segment.None? {
        NothingCapturedBeyond(expected, decoded, index + 1);
        return None;
      }
      if IsParameter(expected[index]) {
        params := params[ParameterName(expected[index]) := segment.value];
      } else if expected[index] != segment.value {
        NothingCapturedBeyond(expected, decoded, index + 1);
        return None;
      }
    }
    assert expected[..|expected|] == expected && decoded[..|expected|] == decoded;
    return Some(params);
  }

  function FirstMatch(routes: seq<Route>, pathname: string): Option<RouteMatch> {
    if routes == [] then None
    else
      match Matched(routes[0].path, pathname)
      case Some(params) => Some(RouteMatch(routes[0], params))
      case None => FirstMatch(routes[1..], pathname)
  }

  method MatchRoute(routes: seq<Route>, pathname: string) returns (result: Option<RouteMatch>)
    ensures result == FirstMatch(routes, pathname)
  {
    for i := 0 to |routes|
      invariant FirstMatch(routes, pathname) == FirstMatch(routes[i..], pathname)
    {
      var params := MatchPattern(routes[i].path, pathname);
      if params.Some? {
        return Some(RouteMatch(routes[i], params.value));
      }
    }
    return None;
  }

  /** The match is the earliest route whose pattern accepts the path, with what that pattern captures. */
  lemma {:induction false} FirstMatchIsEarliest(routes: seq<Route>, pathname: string, i: nat)
    requires i <= |routes| && forall j :: 0 <= j < i ==> Matched(routes[j].path, pathname).None?
    ensures FirstMatch(routes, pathname) == FirstMatch(routes[i..], pathname)
    ensures i == |routes| ==> FirstMatch(routes, pathname) == None
    ensures i < |routes| && Matched(routes[i].path, pathname).Some? ==>
              FirstMatch(routes, pathname) == Some(RouteMatch(routes[i], Matched(routes[i].path, pathname).value))
  {
    if i > 0 {
      assert Matched(routes[0].path, pathname).None?;
      assert routes[1..][i - 1..] == routes[i..];
      FirstMatchIsEarliest(routes[1..], pathname, i - 1);
    } else {
      assert routes[0..] == routes;
    }
  }

  // ---- Building --------------------------------------------------------------------------------------

  /** Replaces every braced name, leftmost first; a name without a value, or with an empty one, is an error. */
  function BuildPath(pattern: string, params: Params): Result<string, BuildError>
    decreases |pattern|
  {
    if pattern == "" then Ok("")
    else
      var n := Until(pattern[1..], '}');
      if pattern[0] == '{' && 0 < n < |pattern| - 1 then
        var name := pattern[1..1 + n];
        if name !in params || params[name] == "" then Err(MissingParameter(name))
        else After(Encode(params[name]), BuildPath(pattern[n + 2..], params))
      else
        After([pattern[0]], BuildPath(pattern[1..], params))
  }

  function After(prefix: string, rest: Result<string, BuildError>): Result<string, BuildError> {
    match rest case Err(error) => Err(error) case Ok(text) => Ok(prefix + text)
  }

  /** Literal text, or one braced name. */
  predicate IsProperSegment(segment: string) {
    if IsParameter(segment) then
      |segment| > 2 && forall i :: 0 < i < |segment| - 1 ==> segment[i] != '{' && segment[i] != '}'
    else
      segment != "" && '{' !in segment && '%' !in segment
  }

  ghost predicate IsProperPattern(pattern: string) {
    pattern != "" && pattern[0] == '/'
    && forall i :: 0 <= i < |ExpectedSegments(pattern)| ==> IsProperSegment(ExpectedSegments(pattern)[i])
  }

  function ParameterNames(segments: seq<string>): set<string> {
    set i | 0 <= i < |segments| && IsParameter(segments[i]) :: ParameterName(segments[i])
  }

  predicate HasValue(segment: string, params: Params) {
    IsParameter(segment) ==> ParameterName(segment) in params && params[ParameterName(segment)] != ""
  }

  ghost predicate HasEveryValue(segments: seq<string>, params: Params) {
    forall i :: 0 <= i < |segments| ==> HasValue(segments[i], params)
  }

  function BuiltSegment(segment: string, params: Params): string
    requires HasValue(segment, params)
  {
    if IsParameter(segment) then Encode(params[ParameterName(segment)]) else segment
  }

  /** What a matcher sees of a segment built from these parameters. */
  function SegmentMeaning(segment: string, params: Params): Option<string>
    requires HasValue(segment, params)
  {
    if !IsParameter(segment) then Some(segment)
    else if '/' in params[ParameterName(segment)] then None
    else Some(params[ParameterName(segment)])
  }

  lemma {:induction false} LiteralStays(literal: string, rest: string, params: Params)
    requires '{' !in literal
    ensures BuildPath(literal + rest, params) == After(literal, BuildPath(rest, params))
  {
    if literal == "" {
      assert literal + rest == rest;
      assert BuildPath(rest, params).Ok? ==> "" + BuildPath(rest, params).value == BuildPath(rest, params).value;
    } else {
      LiteralStays(literal[1..], rest, params);
      assert (literal + rest)[1..] == literal[1..] + rest;
      assert forall text: string :: [literal[0]] + (literal[1..] + text) == literal + text;
    }
  }

  lemma SegmentIsBuilt(segment: string, rest: string, params: Params)
    requires IsProperSegment(segment)
    ensures BuildPath(segment + rest, params)
         == if HasValue(segment, params) then After(BuiltSegment(segment, params), BuildPath(rest, params))
            else Err(MissingParameter(ParameterName(segment)))
  {
    if IsParameter(segment) {
      var name := ParameterName(segment);
      var pattern := segment + rest;
      UntilEnds(name, "}" + rest, '}');
      assert pattern[1..] == name + ("}" + rest);
      assert pattern[1..1 + |name|] == name && pattern[|name| + 2..] == rest;
    } else {
      LiteralStays(segment, rest, params);
    }
  }

  ghost function BuiltSegments(segments: seq<string>, params: Params): (built: seq<string>)
    requires HasEveryValue(segments, params)
  {
    seq(|segments|, i requires 0 <= i < |segments| => BuiltSegment(segments[i], params))
  }

  ghost function Meanings(segments: seq<string>, params: Params): (meanings: seq<Option<string>>)
    requires HasEveryValue(segments, params)
  {
    seq(|segments|, i requires 0 <= i < |segments| => SegmentMeaning(segments[i], params))
  }

  lemma SegmentBeforeOthers(segments: seq<string>, params: Params)
    requires |segments| > 1 && IsProperSegment(segments[0])
    ensures BuildPath(Join(segments, '/'), params)
         == if HasValue(segments[0], params) then
              After(BuiltSegment(segments[0], params), After("/", BuildPath(Join(segments[1..], '/'), params)))
            else Err(MissingParameter(ParameterName(segments[0])))
  {
    var rest := Join(segments[1..], '/');
    assert Join(segments, '/') == segments[0] + ("/" + rest);
    SegmentIsBuilt(segments[0], "/" + rest, params);
    LiteralStays("/", rest, params);
  }

  lemma LoneSegment(segments: seq<string>, params: Params)
    requires |segments| == 1 && IsProperSegment(segments[0])
    ensures BuildPath(Join(segments, '/'), params)
         == if HasValue(segments[0], params) then Ok(BuiltSegment(segments[0], params))
            else Err(MissingParameter(ParameterName(segments[0])))
  {
    SegmentIsBuilt(segments[0], "", params);
    assert segments[0] + "" == segments[0];
    if HasValue(segments[0], params) {
      assert BuiltSegment(segments[0], params) + "" == BuiltSegment(segments[0], params);
    }
  }

  lemma BuiltTail(segments: seq<string>, params: Params)
    requires |segments| > 1 && HasEveryValue(segments, params)
    ensures HasEveryValue(segments[1..], params)
    ensures Join(BuiltSegments(segments, params), '/')
         == BuiltSegment(segments[0], params) + ("/" + Join(BuiltSegments(segments[1..], params), '/'))
  {
    assert BuiltSegments(segments, params)[1..] == BuiltSegments(segments[1..], params);
  }

  lemma {:induction false} SegmentsAreBuilt(segments: seq<string>, params: Params)
    requires segments != [] && HasEveryValue(segments, params)
    requires forall i :: 0 <= i < |segments| ==> IsProperSegment(segments[i])
    ensures BuildPath(Join(segments, '/'), params) == Ok(Join(BuiltSegments(segments, params), '/'))
  {
    if |segments| == 1 {
      LoneSegment(segments, params);
    } else {
      SegmentBeforeOthers(segments, params);
      SegmentsAreBuilt(segments[1..], params);
      BuiltTail(segments, params);
    }
  }

  lemma {:induction false} FirstMissingFails(segments: seq<string>, params: Params, k: nat)
    requires k < |segments| && HasEveryValue(segments[..k], params) && !HasValue(segments[k], params)
    requires forall i :: 0 <= i < |segments| ==> IsProperSegment(segments[i])
    ensures BuildPath(Join(segments, '/'), params) == Err(MissingParameter(ParameterName(segments[k])))
  {
    if |segments| == 1 {
      LoneSegment(segments, params);
    } else {
      SegmentBeforeOthers(segments, params);
      if k > 0 {
        assert segments[..k][0] == segments[0];
        assert segments[1..][..k - 1] == segments[..k][1..];
        FirstMissingFails(segments[1..], params, k - 1);
      }
    }
  }

  lemma {:induction false} SomeValueIsFirstMissing(segments: seq<string>, params: Params) returns (k: nat)
    requires !HasEveryValue(segments, params)
    ensures k < |segments| && HasEveryValue(segments[..k], params) && !HasValue(segments[k], params)
  {
    var i :| 0 <= i < |segments| && !HasValue(segments[i], params);
    k := 0;
    while HasValue(segments[k], params)
      invariant k <= i && HasEveryValue(segments[..k], params)
      decreases i - k
    {
      k := k + 1;
    }
  }

  lemma OnlyOneIsFirst(segments: seq<string>, params: Params, a: nat, b: nat)
    requires a < |segments| && !HasValue(segments[a], params) && HasEveryValue(segments[..a], params)
    requires b < |segments| && !HasValue(segments[b], params) && HasEveryValue(segments[..b], params)
    ensures a == b
  {
  }

  lemma BuiltSegmentDecodes(segment: string, params: Params)
    requires IsProperSegment(segment) && '/' !in segment && HasValue(segment, params)
    ensures var built := BuiltSegment(segment, params);
            built != "" && '/' !in built && DecodeSegment(built) == SegmentMeaning(segment, params)
  {
    if IsParameter(segment) {
      EncodedTextDecodes(params[ParameterName(segment)]);
    } else {
      PlainTextDecodesToItself(segment);
    }
  }

  lemma {:induction false} JoinKeepsLastCharacter(segments: seq<string>)
    requires segments != [] && forall i :: 0 <= i < |segments| ==> segments[i] != "" && '/' !in segments[i]
    ensures Join(segments, '/') != "" && Join(segments, '/')[|Join(segments, '/')| - 1] != '/'
  {
    if |segments| > 1 {
      JoinKeepsLastCharacter(segments[1..]);
    }
  }

  lemma JoinedPathSplits(segments: seq<string>)
    requires segments != [] && forall i :: 0 <= i < |segments| ==> segments[i] != "" && '/' !in segments[i]
    ensures ActualSegments("/" + Join(segments, '/')) == segments
  {
    JoinKeepsLastCharacter(segments);
    JoinedPartsSplit(segments, '/');
    assert ("/" + Join(segments, '/'))[1..] == Join(segments, '/');
  }

  lemma BuiltSegmentsDecode(text: string, params: Params)
    requires HasEveryValue(Split(text, '/'), params)
    requires forall i :: 0 <= i < |Split(text, '/')| ==> IsProperSegment(Split(text, '/')[i])
    ensures DecodedSegments(ActualSegments("/" + Join(BuiltSegments(Split(text, '/'), params), '/')))
         == Meanings(Split(text, '/'), params)
  {
    var segments := Split(text, '/');
    var built := BuiltSegments(segments, params);
    forall i | 0 <= i < |segments|
      ensures built[i] != "" && '/' !in built[i] && DecodeSegment(built[i]) == SegmentMeaning(segments[i], params)
    {
      PartsHoldNoSeparator(text, '/', i);
      BuiltSegmentDecodes(segments[i], params);
    }
    JoinedPathSplits(built);
  }

  lemma PatternAfterSlash(pattern: string, params: Params)
    requires pattern != "" && pattern[0] == '/'
    ensures BuildPath(pattern, params) == After("/", BuildPath(Rest(pattern), params))
    ensures Join(Split(Rest(pattern), '/'), '/') == Rest(pattern)
  {
    assert pattern == "/" + Rest(pattern);
    LiteralStays("/", Rest(pattern), params);
    SplitTextJoins(Rest(pattern), '/');
  }

  /** A built path has one segment per pattern segment, and they decode to literals and raw values. */
  lemma BuiltPathSegments(pattern: string, params: Params)
    requires IsProperPattern(pattern) && HasEveryValue(ExpectedSegments(pattern), params)
    ensures BuildPath(pattern, params).Ok?
    ensures DecodedSegments(ActualSegments(BuildPath(pattern, params).value))
         == Meanings(ExpectedSegments(pattern), params)
  {
    PatternAfterSlash(pattern, params);
    if pattern == "/" {
      assert "/" + "" == "/";
    } else {
      SegmentsAreBuilt(Split(Rest(pattern), '/'), params);
      BuiltSegmentsDecode(Rest(pattern), params);
    }
  }

  /** Building fails exactly for the first parameter, from the left, that has no value. */
  lemma BuildFailsAtTheFirstMissing(pattern: string, params: Params)
    requires IsProperPattern(pattern)
    ensures HasEveryValue(ExpectedSegments(pattern), params) <==> BuildPath(pattern, params).Ok?
    ensures forall k :: 0 <= k < |ExpectedSegments(pattern)| && !HasValue(ExpectedSegments(pattern)[k], params)
                        && HasEveryValue(ExpectedSegments(pattern)[..k], params) ==>
              BuildPath(pattern, params) == Err(MissingParameter(ParameterName(ExpectedSegments(pattern)[k])))
  {
    var segments := ExpectedSegments(pattern);
    if HasEveryValue(segments, params) {
      BuiltPathSegments(pattern, params);
    } else {
      PatternAfterSlash(pattern, params);
      var first := SomeValueIsFirstMissing(segments, params);
      FirstMissingFails(segments, params, first);
      forall k | 0 <= k < |segments| && !HasValue(segments[k], params) && HasEveryValue(segments[..k], params)
        ensures k == first
      {
        OnlyOneIsFirst(segments, params, first, k);
      }
    }
  }

  function UsedParameters(segments: seq<string>, params: Params): Params {
    map name | name in params && name in ParameterNames(segments) :: params[name]
  }

  predicate HasSlashFreeValues(segments: seq<string>, params: Params) {
    forall i :: 0 <= i < |segments| && IsParameter(segments[i]) && ParameterName(segments[i]) in params ==>
      '/' !in params[ParameterName(segments[i])]
  }

  lemma NamesWithOneMore(init: seq<string>, last: string)
    ensures ParameterNames(init + [last])
         == ParameterNames(init) + if IsParameter(last) then {ParameterName(last)} else {}
  {
    var segments := init + [last];
    assert segments[|init|] == last && forall i :: 0 <= i < |init| ==> segments[i] == init[i];
    forall name | name in ParameterNames(init)
      ensures name in ParameterNames(segments)
    {
      var i :| 0 <= i < |init| && IsParameter(init[i]) && ParameterName(init[i]) == name;
      assert segments[i] == init[i];
    }
    if IsParameter(last) {
      assert IsParameter(segments[|init|]) && ParameterName(segments[|init|]) == ParameterName(last);
    }
  }

  lemma UsedWithOneMore(init: seq<string>, last: string, params: Params)
    requires HasValue(last, params)
    ensures UsedParameters(init + [last], params)
         == if IsParameter(last) then UsedParameters(init, params)[ParameterName(last) := params[ParameterName(last)]]
            else UsedParameters(init, params)
  {
    NamesWithOneMore(init, last);
  }

  lemma SlashFreeWithOneMore(init: seq<string>, last: string, params: Params)
    requires HasValue(last, params)
    ensures HasSlashFreeValues(init + [last], params) <==>
            HasSlashFreeValues(init, params) && SegmentMeaning(last, params).Some?
  {
    var segments := init + [last];
    assert segments[|init|] == last && forall i :: 0 <= i < |init| ==> segments[i] == init[i];
  }

  lemma {:induction false} PatternCapturesItsMeanings(segments: seq<string>, params: Params)
    requires HasEveryValue(segments, params)
    ensures Capture(segments, Meanings(segments, params))
         == if HasSlashFreeValues(segments, params) then Some(UsedParameters(segments, params)) else None
  {
    if segments != [] {
      var n := |segments| - 1;
      var init, last := segments[..n], segments[n];
      assert segments == init + [last];
      assert Meanings(segments, params)[..n] == Meanings(init, params);
      PatternCapturesItsMeanings(init, params);
      SlashFreeWithOneMore(init, last, params);
      UsedWithOneMore(init, last, params);
    }
  }

  /**
   * Matching a built path against its own pattern returns exactly the values it was built from, whatever
   * characters they hold, unless one of them holds a slash; then the path does not match at all.
   */
  lemma BuiltPathMatchesExactlyWhen(pattern: string, params: Params)
    requires IsProperPattern(pattern) && BuildPath(pattern, params).Ok?
    ensures Matched(pattern, BuildPath(pattern, params).value)
         == if HasSlashFreeValues(ExpectedSegments(pattern), params) then
              Some(UsedParameters(ExpectedSegments(pattern), params))
            else None
  {
    BuildFailsAtTheFirstMissing(pattern, params);
    BuiltPathSegments(pattern, params);
    PatternCapturesItsMeanings(ExpectedSegments(pattern), params);
  }

  /** A value with a slash is encoded, but does not come back. */
  lemma SlashedValueIsLost()
    ensures var pattern, params := "/{a}", map["a" := "x/y"];
            && BuildPath(pattern, params).Ok?
            && Matched(pattern, BuildPath(pattern, params).value) == None
  {
    var pattern, params, segments := "/{a}", map["a" := "x/y"], ["{a}"];
    JoinedPartsSplit(segments, '/');
    assert Rest(pattern) == "{a}" && ExpectedSegments(pattern) == segments;
    assert ParameterName("{a}") == "a";
    assert "x/y"[1] == '/';
    BuildFailsAtTheFirstMissing(pattern, params);
    BuiltPathMatchesExactlyWhen(pattern, params);
  }

  // ---- Which route a built path reaches ------------------------------------------------------------------

  lemma {:induction false} CapturesExactlyWhen(expected: seq<string>, actual: seq<Option<string>>)
    requires |expected| == |actual|
    ensures Capture(expected, actual).Some? <==>
            forall i :: 0 <= i < |expected| ==>
              actual[i].Some? && (IsParameter(expected[i]) || actual[i] == Some(expected[i]))
  {
    if expected != [] {
      CapturesExactlyWhen(expected[..|expected| - 1], actual[..|actual| - 1]);
    }
  }

  /** Another pattern of the same length has a parameter, or the very same text, in every place. */
  ghost predicate Covers(other: string, pattern: string, params: Params)
    requires HasEveryValue(ExpectedSegments(pattern), params)
  {
    && |ExpectedSegments(other)| == |ExpectedSegments(pattern)|
    && CoversSegments(ExpectedSegments(other), ExpectedSegments(pattern), params)
  }

  ghost predicate CoversSegments(theirs: seq<string>, ours: seq<string>, params: Params)
    requires HasEveryValue(ours, params) && |theirs| == |ours|
  {
    forall i :: 0 <= i < |ours| ==>
      && SegmentMeaning(ours[i], params).Some?
      && (IsParameter(theirs[i]) || SegmentMeaning(ours[i], params) == Some(theirs[i]))
  }

  /** A path built for one route is taken by another exactly when that one covers it; encoding plays no part. */
  lemma BuiltPathIsTakenExactlyWhenCovered(other: string, pattern: string, params: Params)
    requires IsProperPattern(pattern) && HasEveryValue(ExpectedSegments(pattern), params)
    ensures BuildPath(pattern, params).Ok?
    ensures Matched(other, BuildPath(pattern, params).value).Some? <==> Covers(other, pattern, params)
  {
    BuiltPathSegments(pattern, params);
    if |ExpectedSegments(other)| == |ExpectedSegments(pattern)| {
      CapturedMeanings(ExpectedSegments(other), ExpectedSegments(pattern), params);
    }
  }

  lemma CapturedMeanings(theirs: seq<string>, ours: seq<string>, params: Params)
    requires HasEveryValue(ours, params) && |theirs| == |ours|
    ensures Capture(theirs, Meanings(ours, params)).Some? <==> CoversSegments(theirs, ours, params)
  {
    CapturesExactlyWhen(theirs, Meanings(ours, params));
    assert forall i :: 0 <= i < |ours| ==> Meanings(ours, params)[i] == SegmentMeaning(ours[i], params);
  }

  /** A parameter value equal to the literal of a neighbouring route, such as "new", leads to the neighbour as well. */
  lemma LiteralNeighbourTakesItsWord(neighbour: string, pattern: string, params: Params, k: nat)
    requires IsProperPattern(pattern) && HasEveryValue(ExpectedSegments(pattern), params)
    requires HasSlashFreeValues(ExpectedSegments(pattern), params)
    requires k < |ExpectedSegments(pattern)| && IsParameter(ExpectedSegments(pattern)[k])
    requires ExpectedSegments(neighbour)
          == ExpectedSegments(pattern)[k := params[ParameterName(ExpectedSegments(pattern)[k])]]
    ensures BuildPath(pattern, params).Ok?
    ensures Matched(neighbour, BuildPath(pattern, params).value).Some?
  {
    BuiltPathIsTakenExactlyWhenCovered(neighbour, pattern, params);
  }

  lemma TwoSegments(pattern: string, first: string, second: string)
    requires '/' !in first && '/' !in second && pattern == "/" + (first + ("/" + second))
    ensures ExpectedSegments(pattern) == [first, second]
  {
    var segments := [first, second];
    assert segments[1..] == [second];
    JoinedPartsSplit(segments, '/');
    assert Rest(pattern) == first + ("/" + second) && |pattern| > 1;
  }

  lemma TwoProperSegments(pattern: string, first: string, second: string)
    requires '/' !in first && '/' !in second && pattern == "/" + (first + ("/" + second))
    requires IsProperSegment(first) && IsProperSegment(second)
    ensures IsProperPattern(pattern)
  {
    TwoSegments(pattern, first, second);
  }

  lemma BracedName(segment: string, name: string)
    requires segment == "{" + (name + "}") && name != "" && '{' !in name && '}' !in name
    ensures IsParameter(segment) && ParameterName(segment) == name && IsProperSegment(segment)
  {
    assert segment[1..|segment| - 1] == name;
  }

  lemma PairHasItsValue(prefix: string, parameter: string, word: string, params: Params)
    requires !IsParameter(prefix) && IsParameter(parameter) && word != "" && '/' !in word
    requires params == map[ParameterName(parameter) := word]
    ensures HasEveryValue([prefix, parameter], params) && HasSlashFreeValues([prefix, parameter], params)
    ensures [prefix, parameter][1] == parameter
    ensures [prefix, word] == [prefix, parameter][1 := params[ParameterName(parameter)]]
  {
  }

  /** Of two routes that differ in a word and a parameter, the word's takes the path built for that very value. */
  lemma WordIsTakenByItsRoute(
    fixed: Route, open: Route, prefix: string, word: string, parameter: string, params: Params)
    requires '/' !in prefix && '/' !in word && IsProperSegment(prefix) && !IsParameter(prefix)
    requires '/' !in parameter && IsParameter(parameter) && IsProperSegment(parameter)
    requires fixed.path == "/" + (prefix + ("/" + word)) && open.path == "/" + (prefix + ("/" + parameter))
    requires word != "" && params == map[ParameterName(parameter) := word]
    ensures BuildPath(open.path, params).Ok?
    ensures var found := FirstMatch([fixed, open], BuildPath(open.path, params).value);
            found.Some? && found.value.route == fixed
  {
    TwoSegments(fixed.path, prefix, word);
    TwoSegments(open.path, prefix, parameter);
    TwoProperSegments(open.path, prefix, parameter);
    PairHasItsValue(prefix, parameter, word, params);
    LiteralNeighbourTakesItsWord(fixed.path, open.path, params, 1);
    FirstMatchIsEarliest([fixed, open], BuildPath(open.path, params).value, 0);
  }

  /** So the path built for an item with the id "new" leads to the form for a new item. */
  lemma NewLeadsToTheForm()
    ensures var form, item, params := Route("item-new", "/x/new"), Route("item", "/x/{id}"), map["id" := "new"];
            && BuildPath(item.path, params).Ok?
            && FirstMatch([form, item], BuildPath(item.path, params).value).Some?
            && FirstMatch([form, item], BuildPath(item.path, params).value).value.route == form
  {
    BracedName("{id}", "id");
    var form, item := Route("item-new", "/x/new"), Route("item", "/x/{id}");
    WordIsTakenByItsRoute(form, item, "x", "new", "{id}", map["id" := "new"]);
  }

  /**
   * A path built for a route from slash-free values reaches that route, with exactly those values, exactly
   * when no earlier route covers it; otherwise it reaches the earliest one that does.
   */
  lemma BuiltPathReachesItsRouteExactlyWhen(routes: seq<Route>, i: nat, params: Params)
    requires i < |routes| && IsProperPattern(routes[i].path)
    requires HasEveryValue(ExpectedSegments(routes[i].path), params)
    requires HasSlashFreeValues(ExpectedSegments(routes[i].path), params)
    ensures BuildPath(routes[i].path, params).Ok?
    ensures var found := FirstMatch(routes, BuildPath(routes[i].path, params).value);
            if forall j :: 0 <= j < i ==> !Covers(routes[j].path, routes[i].path, params) then
              found == Some(RouteMatch(routes[i], UsedParameters(ExpectedSegments(routes[i].path), params)))
            else
              exists j :: && 0 <= j < i && Covers(routes[j].path, routes[i].path, params)
                          && found.Some? && found.value.route == routes[j]
                          && forall k :: 0 <= k < j ==> !Covers(routes[k].path, routes[i].path, params)
  {
    var pattern := routes[i].path;
    BuildFailsAtTheFirstMissing(pattern, params);
    var path := BuildPath(pattern, params).value;
    forall j | 0 <= j < i
      ensures Matched(routes[j].path, path).Some? <==> Covers(routes[j].path, pattern, params)
    {
      BuiltPathIsTakenExactlyWhenCovered(routes[j].path, pattern, params);
    }
    BuiltPathMatchesExactlyWhen(pattern, params);
    var first := EarliestCover(routes, i, params);
    FirstMatchIsEarliest(routes, path, first);
  }

  lemma EarliestCover(routes: seq<Route>, i: nat, params: Params) returns (first: nat)
    requires i < |routes| && HasEveryValue(ExpectedSegments(routes[i].path), params)
    ensures first <= i && forall j :: 0 <= j < first ==> !Covers(routes[j].path, routes[i].path, params)
    ensures first < i ==> Covers(routes[first].path, routes[i].path, params)
  {
    first := 0;
    while first < i && !Covers(routes[first].path, routes[i].path, params)
      invariant first <= i && forall j :: 0 <= j < first ==> !Covers(routes[j].path, routes[i].path, params)
    {
      first := first + 1;
    }
  }

  /** Slashes at the end of a path are ignored, except that the bare root is not the root with more slashes. */
  lemma TrailingSlashesAreIgnored(pattern: string, pathname: string)
    ensures pathname != "" && pathname != "/" ==> Matched(pattern, pathname + "/") == Matched(pattern, pathname)
    ensures Matched("/", "/") == Some(map[]) && Matched("/", "//") == None
  {
    assert (pathname + "/")[..|pathname|] == pathname;
    assert WithoutTrailingSlashes("//") == "" by {
      assert "//"[..1] == "/" && "/"[..0] == "";
    }
  }
}
