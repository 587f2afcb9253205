/** Path templates of the operation contract: the parameters a command asks for are those its URL needs. */
module OperationPaths {
  import opened Texts
  import opened Wrappers

  /** The braced names of a template, from the left; an unclosed brace ends the search. */
  function PathParameters(path: string): seq<string>
    decreases |path|
  {
    var start := Until(path, '{');
    if start == |path| then [] else FromBrace(path[start + 1..])
  }

  function FromBrace(text: string): seq<string>
    decreases |text|
  {
    var end := Until(text, '}');
    if end == |text| then [] else [text[..end]] + PathParameters(text[end + 1..])
  }

  lemma OneAfterAnother(names: seq<string>, name: string, rest: seq<string>)
    ensures names + ([name] + rest) == (names + [name]) + rest
  {
  }

  lemma OneMoreName(names: seq<string>, text: string, end: nat)
    requires end == Until(text, '}') && end < |text|
    ensures names + FromBrace(text) == (names + [text[..end]]) + PathParameters(text[end + 1..])
  {
    OneAfterAnother(names, text[..end], PathParameters(text[end + 1..]));
  }

  method ExtractPathParameters(path: string) returns (parameters: seq<string>)
    ensures parameters == PathParameters(path)
  {
    parameters := [];
    var remainder := path;
    while true
      invariant PathParameters(path) == parameters + PathParameters(remainder)
      decreases |remainder|
    {
      var start := Until(remainder, '{');
      if start == |remainder| {
        return;
      }
      var afterStart := remainder[start + 1..];
      assert PathParameters(remainder) == FromBrace(afterStart);
      var end := Until(afterStart, '}');
      if end == |afterStart| {
        return;
      }
      OneMoreName(parameters, afterStart, end);
      parameters := parameters + [afterStart[..end]];
      remainder := afterStart[end + 1..];
    }
  }

  /** A whole segment in braces. */
  predicate IsParameter(segment: string) {
    |segment| >= 2 && segment[0] == '{' && segment[|segment| - 1] == '}'
  }

  function ParameterName(segment: string): string
    requires IsParameter(segment)
  {
    segment[1..|segment| - 1]
  }

  /** The segments of the URL: literals and argument values, or the first name without an argument. */
  function UrlSegments(segments: seq<string>, arguments: map<string, string>): Result<seq<string>, string> {
    if segments == [] then Ok([])
    else if segments[0] == "" then UrlSegments(segments[1..], arguments)
    else if IsParameter(segments[0]) && ParameterName(segments[0]) !in arguments then Err(ParameterName(segments[0]))
    else
      match UrlSegments(segments[1..], arguments)
      case Err(name) => Err(name)
      case Ok(rest) =>
        Ok([if IsParameter(segments[0]) then arguments[ParameterName(segments[0])] else segments[0]] + rest)
  }

  function OperationUrl(path: string, arguments: map<string, string>): Result<seq<string>, string> {
    UrlSegments(Split(path, '/'), arguments)
  }

  /** The names the URL needs, in their order. */
  function NeededNames(segments: seq<string>): seq<string> {
    if segments == [] then []
    else if IsParameter(segments[0]) then [ParameterName(segments[0])] + NeededNames(segments[1..])
    else NeededNames(segments[1..])
  }

  /** Braces only ever enclose a whole segment. */
  predicate IsProperSegment(segment: string) {
    if IsParameter(segment) then '}' !in ParameterName(segment) else '{' !in segment
  }

  ghost predicate IsProperPath(path: string) {
    forall i :: 0 <= i < |Split(path, '/')| ==> IsProperSegment(Split(path, '/')[i])
  }

  lemma {:induction false} LiteralShifts(literal: string, rest: string)
    requires '{' !in literal
    ensures Until(literal + rest, '{') == |literal| + Until(rest, '{')
  {
    if literal == "" {
      assert literal + rest == rest;
    } else {
      assert (literal + rest)[1..] == literal[1..] + rest;
      LiteralShifts(literal[1..], rest);
    }
  }

  lemma LiteralHasNoParameters(literal: string, rest: string)
    requires '{' !in literal
    ensures PathParameters(literal + rest) == PathParameters(rest)
  {
    LiteralShifts(literal, rest);
    var start := Until(rest, '{');
    if start < |rest| {
      assert (literal + rest)[|literal| + start + 1..] == rest[start + 1..];
    }
  }

  lemma AfterTheBrace(text: string)
    ensures PathParameters("{" + text) == FromBrace(text)
  {
    assert ("{" + text)[1..] == text;
    assert ("{" + text)[0] == '{';
  }

  lemma BracedNameIsFirst(name: string, rest: string)
    requires '}' !in name
    ensures PathParameters("{" + (name + ("}" + rest))) == [name] + PathParameters(rest)
  {
    var text := name + ("}" + rest);
    UntilEnds(name, "}" + rest, '}');
    assert text[..|name|] == name && text[|name| + 1..] == rest;
    AfterTheBrace(text);
  }

  lemma ParameterText(segment: string, rest: string)
    requires IsParameter(segment)
    ensures segment + rest == "{" + (ParameterName(segment) + ("}" + rest))
  {
    assert segment == "{" + (ParameterName(segment) + "}");
  }

  lemma SegmentParameters(segment: string, rest: string)
    requires IsProperSegment(segment)
    ensures PathParameters(segment + rest)
         == if IsParameter(segment) then [ParameterName(segment)] + PathParameters(rest) else PathParameters(rest)
  {
    if IsParameter(segment) {
      BracedNameIsFirst(ParameterName(segment), rest);
      ParameterText(segment, rest);
    } else {
      LiteralHasNoParameters(segment, rest);
    }
  }

  lemma {:induction false} JoinedParameters(segments: seq<string>)
    requires segments != [] && forall i :: 0 <= i < |segments| ==> IsProperSegment(segments[i])
    ensures PathParameters(Join(segments, '/')) == NeededNames(segments)
  {
    if |segments| == 1 {
      SegmentParameters(segments[0], "");
      assert segments[0] + "" == segments[0] && segments == [segments[0]];
    } else {
      var rest := Join(segments[1..], '/');
      SegmentParameters(segments[0], "/" + rest);
      LiteralHasNoParameters("/", rest);
      JoinedParameters(segments[1..]);
    }
  }

  /** The parameters a command asks for are exactly those its URL needs, in the same order. */
  lemma ExtractedParametersAreNeeded(path: string)
    requires IsProperPath(path)
    ensures PathParameters(path) == NeededNames(Split(path, '/'))
  {
    SplitTextJoins(path, '/');
    JoinedParameters(Split(path, '/'));
  }

  lemma {:induction false} UrlNeedsItsNames(segments: seq<string>, arguments: map<string, string>)
    ensures UrlSegments(segments, arguments).Ok? <==> forall name :: name in NeededNames(segments) ==> name in arguments
  {
    if segments != [] {
      UrlNeedsItsNames(segments[1..], arguments);
      if IsParameter(segments[0]) {
        assert NeededNames(segments)[0] == ParameterName(segments[0]);
        assert forall name :: name in NeededNames(segments[1..]) ==> name in NeededNames(segments);
      }
    }
  }

  /** The URL of an operation can be built exactly when every extracted parameter has an argument. */
  lemma UrlIsBuiltExactlyWhenParametersAreGiven(path: string, arguments: map<string, string>)
    requires IsProperPath(path)
    ensures OperationUrl(path, arguments).Ok? <==> forall name :: name in PathParameters(path) ==> name in arguments
  {
    ExtractedParametersAreNeeded(path);
    UrlNeedsItsNames(Split(path, '/'), arguments);
  }

  // ---- The URL that is built -----------------------------------------------------------------------------

  function NonEmpty(segments: seq<string>): (kept: seq<string>)
    ensures forall segment :: segment in kept <==> segment in segments && segment != ""
  {
    if segments == [] then []
    else if segments[0] == "" then NonEmpty(segments[1..])
    else [segments[0]] + NonEmpty(segments[1..])
  }

  /** A literal stands for itself, a name in braces for its argument. */
  predicate StandsFor(segment: string, part: string, arguments: map<string, string>) {
    if |segment| >= 2 && segment[0] == '{' && segment[|segment| - 1] == '}' then
      segment[1..|segment| - 1] in arguments && part == arguments[segment[1..|segment| - 1]]
    else part == segment
  }

  lemma {:induction false} SegmentsStandForTheirParts(segments: seq<string>, arguments: map<string, string>)
    requires UrlSegments(segments, arguments).Ok?
    ensures var url, kept := UrlSegments(segments, arguments).value, NonEmpty(segments);
            && |url| == |kept|
            && forall i :: 0 <= i < |kept| ==> StandsFor(kept[i], url[i], arguments)
  {
    if segments != [] {
      SegmentsStandForTheirParts(segments[1..], arguments);
    }
  }

  /** The name stands at this place, has no argument, and every name before it has one. */
  predicate IsFirstMissing(names: seq<string>, arguments: map<string, string>, k: nat, name: string) {
    && k < |names| && names[k] == name && name !in arguments
    && forall i :: 0 <= i < k ==> names[i] in arguments
  }

  lemma {:induction false} FirstMissingNameIsReported(segments: seq<string>, arguments: map<string, string>)
    returns (k: nat)
    requires UrlSegments(segments, arguments).Err?
    ensures IsFirstMissing(NeededNames(segments), arguments, k, UrlSegments(segments, arguments).error)
  {
    if IsParameter(segments[0]) && ParameterName(segments[0]) !in arguments {
      k := 0;
    } else {
      k := FirstMissingNameIsReported(segments[1..], arguments);
      if IsParameter(segments[0]) {
        k := k + 1;
      }
    }
  }

  /**
   * The URL is the template's non-empty segments in order, each name in braces replaced by its argument; or the
   * error names the first parameter that has none.
   */
  lemma BuiltUrlFillsTheTemplate(path: string, arguments: map<string, string>)
    ensures match OperationUrl(path, arguments)
            case Ok(url) =>
              var kept := NonEmpty(Split(path, '/'));
              |url| == |kept| && forall i :: 0 <= i < |kept| ==> StandsFor(kept[i], url[i], arguments)
            case Err(name) =>
              exists k: nat :: IsFirstMissing(NeededNames(Split(path, '/')), arguments, k, name)
  {
    if OperationUrl(path, arguments).Ok? {
      SegmentsStandForTheirParts(Split(path, '/'), arguments);
    } else {
      var _ := FirstMissingNameIsReported(Split(path, '/'), arguments);
    }
  }
}
